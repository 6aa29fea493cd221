/** The text processing of the `OdinCompletions` event listener (OdinCompletions.py): comment
    and import stripping, the proc-definition completion builder and the per-definition
    dispatch. The regular expressions that find definitions, structs and procs are not
    modelled: what they capture arrives as `Definition` and `ProcDefinitionMatch` records. */
module OdinCompletions {
  import opened Base
  import opened Strings
  import opened Paths
  import opened Parser

  // ---------------------------------------------------------------------------
  // `strip_block_comments`: a depth-counting scan.

  /** The loop state of `strip_block_comments`: the nesting depth, the index at which the
      text after the last closed comment starts, and the stretches kept so far. */
  datatype Scan = Scan(depth: int, commentEnd: nat, kept: seq<string>)

  // `odin_text[i:i+2] == '/*'`.
  predicate OpensAt(t: string, i: nat) {
    i + 2 <= |t| && t[i] == '/' && t[i + 1] == '*'
  }

  // `odin_text[i-2:i] == '*/'`; for `i < 2` the slice has a negative start and is empty.
  predicate ClosesBefore(t: string, i: nat) {
    2 <= i <= |t| && t[i - 2] == '*' && t[i - 1] == '/'
  }

  /** One iteration of the loop, at index `i`. An opening marker at depth 0 keeps the text
      since the last close; a closing marker (checked only when no marker opens at `i`)
      lowers the depth, records where the text resumes when it reaches 0, and clamps it at 0. */
  function ScanStep(t: string, i: nat, s: Scan): Scan {
    if OpensAt(t, i) then
      Scan(s.depth + 1, s.commentEnd, if s.depth == 0 then s.kept + [Slice(t, s.commentEnd, i)] else s.kept)
    else if ClosesBefore(t, i) then
      var d := s.depth - 1;
      Scan(if d < 0 then 0 else d, if d == 0 then i else s.commentEnd, s.kept)
    else s
  }

  /** The state after the iterations for indices `0 .. n - 1`. The source stops at
      `n == |t|`; one iteration more is allowed for the corrected scan below. */
  function ScanUpTo(t: string, n: nat): Scan
    requires n <= |t| + 1
  {
    if n == 0 then Scan(0, 0, []) else ScanStep(t, n - 1, ScanUpTo(t, n - 1))
  }

  /** What `strip_block_comments` returns: the kept stretches, then the text from the last
      resume point to the end, joined. */
  function StripBlockCommentsOf(t: string): string {
    var s := ScanUpTo(t, |t|);
    Join("", s.kept + [Slice(t, s.commentEnd, |t|)])
  }

  /** The depth never goes negative and the resume point never passes the scan. */
  lemma {:induction false} ScanBounds(t: string, n: nat)
    requires n <= |t| + 1
    ensures ScanUpTo(t, n).depth >= 0 && ScanUpTo(t, n).commentEnd <= n
    ensures ScanUpTo(t, n).commentEnd <= |t|
  {
    if n > 0 { ScanBounds(t, n - 1); }
  }

  // The slice comparisons of the loop are the marker predicates.
  lemma MarkerSlices(t: string, i: nat)
    requires i <= |t|
    ensures (i + 2 <= |t| && t[i..i + 2] == "/*") == OpensAt(t, i)
    ensures (i >= 2 && t[i - 2..i] == "*/") == ClosesBefore(t, i)
    ensures ScanUpTo(t, i).commentEnd <= i ==> Slice(t, ScanUpTo(t, i).commentEnd, i) == t[ScanUpTo(t, i).commentEnd..i]
  {
    if i + 2 <= |t| { assert t[i..i + 2] == [t[i], t[i + 1]]; }
    if i >= 2 { assert t[i - 2..i] == [t[i - 2], t[i - 1]]; }
  }

  /** `strip_block_comments`. */
  method StripBlockComments(odinText: string) returns (r: string)
    ensures r == StripBlockCommentsOf(odinText)
  {
    var nonComments: seq<string> := [];
    var commentEndIndex := 0;
    var blockCommentDepth := 0;
    for i := 0 to |odinText|
      invariant Scan(blockCommentDepth, commentEndIndex, nonComments) == ScanUpTo(odinText, i)
    {
      ScanBounds(odinText, i);
      MarkerSlices(odinText, i);
      if i + 2 <= |odinText| && odinText[i..i + 2] == "/*" {
        if blockCommentDepth == 0 {
          nonComments := nonComments + [odinText[commentEndIndex..i]];
        }
        blockCommentDepth := blockCommentDepth + 1;
      } else if i >= 2 && odinText[i - 2..i] == "*/" {
        blockCommentDepth := blockCommentDepth - 1;
        if blockCommentDepth == 0 {
          commentEndIndex := i;
        }
        if blockCommentDepth < 0 {
          blockCommentDepth := 0;
        }
      }
    }
    ScanBounds(odinText, |odinText|);
    assert odinText[commentEndIndex..] == Slice(odinText, commentEndIndex, |odinText|);
    nonComments := nonComments + [odinText[commentEndIndex..]];
    r := Join("", nonComments);
  }

  /** Text free of slashes and stars. */
  predicate Plain(s: string) {
    forall k :: 0 <= k < |s| ==> s[k] != '/' && s[k] != '*'
  }

  /** Text without an opening marker leaves the scan in its initial state. */
  lemma {:induction false} ScanWithoutOpen(t: string, n: nat)
    requires n <= |t| + 1
    requires forall i :: 0 <= i < n ==> !OpensAt(t, i)
    ensures ScanUpTo(t, n) == Scan(0, 0, [])
  {
    if n > 0 { ScanWithoutOpen(t, n - 1); }
  }

  // Text with no `/*` comes back unchanged; in particular a stray `*/` is kept.
  lemma NoOpenUnchanged(t: string)
    requires forall i :: 0 <= i < |t| ==> !OpensAt(t, i)
    ensures StripBlockCommentsOf(t) == t
  {
    ScanWithoutOpen(t, |t|);
  }

  /** The iteration at `k` cannot see a marker: neither `t[k]` nor `t[k - 1]` is a slash. */
  predicate QuietAt(t: string, k: nat)
    requires k < |t|
  {
    t[k] != '/' && (k == 0 || t[k - 1] != '/')
  }

  /** Quiet iterations change nothing. */
  lemma {:induction false} ScanQuiet(t: string, a: nat, b: nat)
    requires a <= b <= |t|
    requires forall k :: a <= k < b ==> QuietAt(t, k)
    ensures ScanUpTo(t, b) == ScanUpTo(t, a)
  {
    if a < b {
      ScanQuiet(t, a, b - 1);
      assert QuietAt(t, b - 1);
    }
  }

  /** The characters of `t` from `a` up to `b` are neither slashes nor stars. */
  predicate PlainBetween(t: string, a: nat, b: nat)
    requires a <= b <= |t|
  {
    forall k :: a <= k < b ==> t[k] != '/' && t[k] != '*'
  }

  /** An opening marker at `o`: the depth rises by one, and at depth 0 the text since the
      last resume point is kept. */
  lemma ScanOpen(t: string, o: nat)
    requires o + 2 <= |t| && t[o] == '/' && t[o + 1] == '*' && (o == 0 || t[o - 1] != '*')
    ensures var s := ScanUpTo(t, o);
      ScanUpTo(t, o + 2)
        == Scan(s.depth + 1, s.commentEnd, if s.depth == 0 then s.kept + [Slice(t, s.commentEnd, o)] else s.kept)
  {
  }

  /** Plain text up to the first opening marker, at `o`: that text is kept and the depth is 1
      once the scan is past the marker. */
  lemma ScanToFirstOpen(t: string, o: nat)
    requires o + 2 <= |t| && PlainBetween(t, 0, o) && t[o] == '/' && t[o + 1] == '*'
    ensures ScanUpTo(t, o + 2) == Scan(1, 0, [t[..o]])
  {
    ScanQuiet(t, 0, o);
    ScanOpen(t, o);
    assert Slice(t, 0, o) == t[..o];
  }

  /** Plain text from `a` up to a closing marker at `c`: the state does not change until the
      marker can be seen, one index after it ends. */
  lemma ScanToClose(t: string, a: nat, c: nat)
    requires a <= c && c + 2 <= |t| && (a == 0 || t[a - 1] != '/') && PlainBetween(t, a, c)
    requires t[c] == '*' && t[c + 1] == '/' && (c + 2 == |t| || t[c + 2] != '*')
    ensures ScanUpTo(t, c + 2) == ScanUpTo(t, a)
  {
    ScanQuiet(t, a, c + 1);
    assert !OpensAt(t, c + 1) && !ClosesBefore(t, c + 1);
  }

  /** The iteration right after a closing marker lowers the depth, clamped at 0; when it
      reaches 0 the text resumes there. */
  lemma ScanSeesClose(t: string, c: nat)
    requires c + 2 <= |t| && t[c] == '*' && t[c + 1] == '/' && !OpensAt(t, c + 2)
    ensures var s := ScanUpTo(t, c + 2); var d := s.depth - 1;
      ScanUpTo(t, c + 3) == Scan(if d < 0 then 0 else d, if d == 0 then c + 2 else s.commentEnd, s.kept)
  {
  }

  // The characters of `p + "/*" + q + "*/" + r` where the three parts lie.
  lemma PlainParts(t: string, p: string, q: string, r: string)
    requires t == p + "/*" + q + "*/" + r && Plain(p) && Plain(q) && Plain(r)
    ensures var o := |p|; var c := |p| + 2 + |q|;
      && PlainBetween(t, 0, o) && t[o] == '/' && t[o + 1] == '*'
      && PlainBetween(t, o + 2, c) && t[c] == '*' && t[c + 1] == '/'
      && PlainBetween(t, c + 2, |t|) && t[..o] == p && t[c + 2..] == r
      && (forall k :: c + 3 <= k < |t| ==> QuietAt(t, k))
  {
    assert t[..|p|] == p;
    assert t[|p| + 2 + |q| + 2..] == r;
  }

  /** One comment, opened at `o` and closed at `c`, with plain text around it: the text
      before it is kept, and the depth is still 1 when the scan reaches the end of the
      closing marker. */
  lemma OneCommentShape(t: string, o: nat, c: nat)
    requires o + 2 <= c && c + 2 <= |t|
    requires PlainBetween(t, 0, o) && t[o] == '/' && t[o + 1] == '*'
    requires PlainBetween(t, o + 2, c) && t[c] == '*' && t[c + 1] == '/'
    requires c + 2 == |t| || t[c + 2] != '*'
    ensures ScanUpTo(t, c + 2) == Scan(1, 0, [t[..o]])
  {
    ScanToFirstOpen(t, o);
    ScanToClose(t, o + 2, c);
  }

  /** Joining two stretches with no separator concatenates them. */
  lemma JoinPair(x: string, y: string)
    ensures Join("", [x, y]) == x + y
  {
    assert [x, y][1..] == [y];
  }

  /** A closing marker that ends the text is never seen: the loop stops before the index
      that would look back at it, so the depth stays above 0 and the final append takes the
      text from index 0, doubling the prefix. */
  lemma CloseAtEndIsMissed(p: string, q: string)
    requires Plain(p) && Plain(q)
    ensures StripBlockCommentsOf(p + "/*" + q + "*/") == p + p + "/*" + q + "*/"
  {
    var t := p + "/*" + q + "*/";
    assert t == p + "/*" + q + "*/" + "";
    PlainParts(t, p, q, "");
    OneCommentShape(t, |p|, |p| + 2 + |q|);
    assert Slice(t, 0, |t|) == t;
    JoinPair(p, t);
  }

  // The characters of `p + "/*" + q` where the two parts lie.
  lemma OpenParts(t: string, p: string, q: string)
    requires t == p + "/*" + q && Plain(p) && Plain(q)
    ensures var o := |p|;
      && PlainBetween(t, 0, o) && t[o] == '/' && t[o + 1] == '*' && t[..o] == p
      && (forall k :: o + 2 <= k < |t| ==> QuietAt(t, k))
      && (|q| > 0 ==> t[|t| - 1] != '/')
  {
    var o := |p|;
    assert t[..o] == p;
    forall k | o + 2 <= k < |t|
      ensures QuietAt(t, k)
    {
      assert t[k] == q[k - o - 2];
      if k > o + 2 { assert t[k - 1] == q[k - o - 3]; }
    }
  }

  /** A comment opened at `o` and never closed, with plain text before it. */
  lemma UnclosedShape(t: string, o: nat)
    requires o + 2 <= |t| && PlainBetween(t, 0, o) && t[o] == '/' && t[o + 1] == '*'
    requires forall k :: o + 2 <= k < |t| ==> QuietAt(t, k)
    ensures ScanUpTo(t, |t|) == Scan(1, 0, [t[..o]])
    ensures o + 2 < |t| ==> ScanUpTo(t, |t| + 1) == Scan(1, 0, [t[..o]])
  {
    ScanToFirstOpen(t, o);
    ScanQuiet(t, o + 2, |t|);
    if o + 2 < |t| {
      assert QuietAt(t, |t| - 1);
      assert !OpensAt(t, |t|) && !ClosesBefore(t, |t|);
    }
  }

  /** An unclosed comment: the text before it is kept when the marker is met, and the final
      append again takes everything from index 0, so that text appears twice. */
  lemma UnclosedCommentDoublesPrefix(p: string, q: string)
    requires Plain(p) && Plain(q)
    ensures StripBlockCommentsOf(p + "/*" + q) == p + p + "/*" + q
  {
    var t := p + "/*" + q;
    OpenParts(t, p, q);
    UnclosedShape(t, |p|);
    assert Slice(t, 0, |t|) == t;
    JoinPair(p, t);
  }

  /** The scan as evidently intended: the loop also runs at index `|t|`, so a closing
      marker that ends the text is seen, and the text from the last resume point is
      appended only when no comment is open at the end. */
  function StripBlockCommentsFixedOf(t: string): string {
    var s := ScanUpTo(t, |t| + 1);
    Join("", if s.depth == 0 then s.kept + [Slice(t, s.commentEnd, |t|)] else s.kept)
  }

  /** The corrected scan still leaves text without an opening marker as it is. */
  lemma FixedNoOpenUnchanged(t: string)
    requires forall i :: 0 <= i < |t| ==> !OpensAt(t, i)
    ensures StripBlockCommentsFixedOf(t) == t
  {
    ScanWithoutOpen(t, |t| + 1);
  }

  // ---------------------------------------------------------------------------
  // What the scan removes from any text whose markers stand apart.

  /** A text cut into pieces: stretches of text and the two markers. */
  datatype Piece = Chunk(s: string) | Opener | Closer

  function PieceText(x: Piece): (r: string)
    ensures x.Chunk? ==> r == x.s
    ensures x.Opener? ==> r == "/*"
    ensures x.Closer? ==> r == "*/"
  {
    match x
    case Chunk(s) => s
    case Opener => "/*"
    case Closer => "*/"
  }

  /** The text the pieces make up. */
  function Render(ps: seq<Piece>): string {
    if |ps| == 0 then "" else Render(ps[..|ps| - 1]) + PieceText(ps[|ps| - 1])
  }

  /** The nesting depth after the pieces: an opening marker raises it and a closing marker
      lowers it, except that a closing marker at depth 0 is stray and leaves it at 0. */
  function Depth(ps: seq<Piece>): nat {
    if |ps| == 0 then 0
    else
      var d := Depth(ps[..|ps| - 1]);
      match ps[|ps| - 1]
      case Chunk(_) => d
      case Opener => d + 1
      case Closer => if d == 0 then 0 else d - 1
  }

  /** The text outside every comment, however deeply comments nest: the stretches met at
      depth 0, and the stray closing markers, which are ordinary text. What follows an
      opening marker that is never closed is inside a comment. */
  function Visible(ps: seq<Piece>): string {
    if |ps| == 0 then ""
    else
      var init := ps[..|ps| - 1];
      var x := ps[|ps| - 1];
      Visible(init) + (if Depth(init) == 0 && !x.Opener? then PieceText(x) else "")
  }

  /** `a` then `b` make a marker. */
  predicate MarkerPair(a: char, b: char) {
    (a == '/' && b == '*') || (a == '*' && b == '/')
  }

  /** A stretch is not empty and no marker begins inside it. */
  predicate PlainPiece(x: Piece) {
    x.Chunk? ==> |x.s| > 0 && forall k :: 0 <= k < |x.s| - 1 ==> !MarkerPair(x.s[k], x.s[k + 1])
  }

  /** Two neighbouring pieces: two stretches would be one, no marker straddles them, and a
      closing marker is not followed at once by an opening one (where the loop's `elif`
      would skip the closing one). */
  predicate Neighbours(x: Piece, y: Piece) {
    var a := PieceText(x);
    var b := PieceText(y);
    && !(x.Chunk? && y.Chunk?)
    && !(x.Closer? && y.Opener?)
    && (|a| > 0 && |b| > 0 ==> !MarkerPair(a[|a| - 1], b[0]))
  }

  /** Piece `i` and the one before it are good neighbours. */
  predicate NeighboursAt(ps: seq<Piece>, i: nat)
    requires 1 <= i < |ps|
  {
    Neighbours(ps[i - 1], ps[i])
  }

  /** The markers of the text are exactly its marker pieces. */
  predicate Separated(ps: seq<Piece>) {
    && (forall i :: 0 <= i < |ps| ==> PlainPiece(ps[i]))
    && (forall i: nat :: 1 <= i < |ps| ==> NeighboursAt(ps, i))
  }

  lemma {:induction false} RenderAppend(a: seq<Piece>, b: seq<Piece>)
    ensures Render(a + b) == Render(a) + Render(b)
  {
    if |b| > 0 {
      var init := b[..|b| - 1];
      RenderAppend(a, init);
      assert (a + b)[..|a + b| - 1] == a + init;
      assert Render(b) == Render(init) + PieceText(b[|b| - 1]);
      calc {
        Render(a + b);
        Render(a + init) + PieceText(b[|b| - 1]);
        Render(a) + Render(init) + PieceText(b[|b| - 1]);
      }
    } else {
      assert a + b == a;
    }
  }

  /** Piece `j` of `ps` sits in `t` from `st[j]` up to `st[j + 1]`. */
  predicate PieceAt(ps: seq<Piece>, t: string, st: seq<nat>, j: nat)
    requires j < |ps| && |st| == |ps| + 1
  {
    st[j] + |PieceText(ps[j])| == st[j + 1] <= |t| && t[st[j]..st[j + 1]] == PieceText(ps[j])
  }

  /** `t` is laid out as the pieces, piece `j` starting at `st[j]`. */
  predicate Layout(ps: seq<Piece>, t: string, st: seq<nat>) {
    && |st| == |ps| + 1 && st[0] == 0 && st[|ps|] == |t|
    && forall j: nat :: j < |ps| ==> PieceAt(ps, t, st, j)
  }

  /** Where each piece starts in the text the pieces make up. */
  function Starts(ps: seq<Piece>): (st: seq<nat>)
    ensures |st| == |ps| + 1
  {
    seq(|ps| + 1, j requires 0 <= j <= |ps| => |Render(ps[..j])|)
  }

  lemma {:induction false} ConcatSpan(t: string, r: string, x: string, u: string)
    requires t == r + x + u
    ensures t[|r|..|r| + |x|] == x
  {
  }

  /** Piece `j` sits in the text at its start. */
  lemma {:induction false} PieceSpan(ps: seq<Piece>, j: nat)
    requires j < |ps|
    ensures PieceAt(ps, Render(ps), Starts(ps), j)
  {
    var head := ps[..j + 1];
    assert head[..j] == ps[..j] && head[j] == ps[j];
    var r := Render(ps[..j]);
    var x := PieceText(ps[j]);
    assert Render(head) == r + x;
    var tail := ps[j + 1..];
    assert head + tail == ps;
    RenderAppend(head, tail);
    ConcatSpan(Render(ps), r, x, Render(tail));
  }

  /** The text the pieces make up is laid out as the pieces. */
  lemma {:induction false} RenderLayout(ps: seq<Piece>)
    ensures Layout(ps, Render(ps), Starts(ps))
  {
    assert ps[..|ps|] == ps;
    forall j: nat | j < |ps|
      ensures PieceAt(ps, Render(ps), Starts(ps), j)
    {
      PieceSpan(ps, j);
    }
  }

  lemma {:induction false} SpanChar(t: string, a: nat, b: nat, x: string, m: nat)
    requires a <= b <= |t| && t[a..b] == x && m < |x|
    ensures t[a + m] == x[m]
  {
    assert t[a..b][m] == t[a + m];
  }

  /** Character `m` of piece `j`. */
  lemma PieceChar(ps: seq<Piece>, t: string, st: seq<nat>, j: nat, m: nat)
    requires Layout(ps, t, st) && j < |ps| && m < |PieceText(ps[j])|
    ensures st[j] + m < |t| && t[st[j] + m] == PieceText(ps[j])[m]
  {
    assert PieceAt(ps, t, st, j);
    SpanChar(t, st[j], st[j + 1], PieceText(ps[j]), m);
  }

  /** The iteration at `k` sees no marker. */
  predicate Silent(t: string, k: nat) {
    !OpensAt(t, k) && !ClosesBefore(t, k)
  }

  /** Iterations that see no marker change nothing. */
  lemma {:induction false} ScanSilent(t: string, a: nat, b: nat)
    requires a <= b <= |t| + 1
    requires forall k :: a <= k < b ==> Silent(t, k)
    ensures ScanUpTo(t, b) == ScanUpTo(t, a)
  {
    if a < b {
      ScanSilent(t, a, b - 1);
      assert Silent(t, b - 1);
    }
  }

  /** The first character of piece `j` and the one before it make no marker. */
  lemma NoMarkerAcross(ps: seq<Piece>, t: string, st: seq<nat>, j: nat)
    requires Layout(ps, t, st) && Separated(ps) && 0 < j < |ps|
    ensures 0 < st[j] < |t| && !MarkerPair(t[st[j] - 1], t[st[j]])
  {
    assert NeighboursAt(ps, j);
    assert PlainPiece(ps[j - 1]) && PlainPiece(ps[j]);
    var w := PieceText(ps[j - 1]);
    PieceChar(ps, t, st, j - 1, |w| - 1);
    assert PieceAt(ps, t, st, j - 1);
    PieceChar(ps, t, st, j, 0);
  }

  /** Two neighbouring characters of a stretch make no marker. */
  lemma NoMarkerInside(ps: seq<Piece>, t: string, st: seq<nat>, j: nat, m: nat)
    requires Layout(ps, t, st) && Separated(ps) && j < |ps| && ps[j].Chunk? && m + 1 < |ps[j].s|
    ensures st[j] + m + 1 < |t| && !MarkerPair(t[st[j] + m], t[st[j] + m + 1])
  {
    assert PlainPiece(ps[j]);
    PieceChar(ps, t, st, j, m);
    PieceChar(ps, t, st, j, m + 1);
  }

  /** A closing marker ends the text before piece `j` only when piece `j - 1` is one. */
  lemma NoCloseBefore(ps: seq<Piece>, t: string, st: seq<nat>, j: nat)
    requires Layout(ps, t, st) && Separated(ps) && j <= |ps|
    ensures (j > 0 && ps[j - 1].Closer?) || !ClosesBefore(t, st[j])
  {
    if j > 0 && !ps[j - 1].Closer? {
      var x := PieceText(ps[j - 1]);
      assert PlainPiece(ps[j - 1]);
      assert PieceAt(ps, t, st, j - 1);
      PieceChar(ps, t, st, j - 1, |x| - 1);
      if ps[j - 1].Opener? {
        assert t[st[j] - 1] == '*';
      } else if |x| >= 2 {
        NoMarkerInside(ps, t, st, j - 1, |x| - 2);
      } else if j >= 2 {
        NoMarkerAcross(ps, t, st, j - 1);
      }
    }
  }

  /** An opening marker begins at the start of piece `j` only when piece `j` is one. */
  lemma NoOpenAt(ps: seq<Piece>, t: string, st: seq<nat>, j: nat)
    requires Layout(ps, t, st) && Separated(ps) && j < |ps|
    ensures ps[j].Opener? || !OpensAt(t, st[j])
  {
    if !ps[j].Opener? {
      var x := PieceText(ps[j]);
      assert PlainPiece(ps[j]);
      assert PieceAt(ps, t, st, j);
      PieceChar(ps, t, st, j, 0);
      if ps[j].Closer? {
        assert t[st[j]] == '*';
      } else if |x| >= 2 {
        NoMarkerInside(ps, t, st, j, 0);
      } else if j + 1 < |ps| {
        NoMarkerAcross(ps, t, st, j + 1);
      }
    }
  }

  /** Where the scan has got to once it has dealt with the first `j` pieces: the end of
      piece `j - 1`, or one index further when that piece is a closing marker, which the
      loop only sees from the next index. */
  function Reached(ps: seq<Piece>, st: seq<nat>, j: nat): nat
    requires j <= |ps| && |st| == |ps| + 1
  {
    if j > 0 && ps[j - 1].Closer? then st[j] + 1 else st[j]
  }

  /** The text a scan state stands for: what it has kept, and at depth 0 the text since the
      resume point. */
  function Pending(t: string, p: nat, s: Scan): string
    requires s.commentEnd <= p <= |t|
  {
    if s.depth == 0 then Join("", s.kept) + t[s.commentEnd..p] else Join("", s.kept)
  }

  /** After the first `j` pieces the scan agrees with the reference: the same depth, and
      the text kept so far, with the text since the resume point when no comment is open,
      is the visible text. */
  predicate Tracks(ps: seq<Piece>, t: string, st: seq<nat>, j: nat)
    requires j <= |ps| && |st| == |ps| + 1
  {
    var p := st[j];
    p <= |t| && Reached(ps, st, j) <= |t| + 1 &&
    var s := ScanUpTo(t, Reached(ps, st, j));
    && s.depth == Depth(ps[..j]) && s.commentEnd <= p
    && Visible(ps[..j]) == Pending(t, p, s)
  }

  /** Joining with no separator and one more part. */
  lemma {:induction false} JoinAppend(parts: seq<string>, x: string)
    ensures Join("", parts + [x]) == Join("", parts) + x
  {
    if |parts| > 0 {
      JoinSnoc("", parts, x);
    }
  }

  /** The iterations inside a stretch, after its first one, see no marker. */
  lemma ChunkSilent(ps: seq<Piece>, t: string, st: seq<nat>, j: nat, k: nat)
    requires Layout(ps, t, st) && Separated(ps) && j < |ps| && ps[j].Chunk?
    requires st[j] < k < st[j + 1]
    ensures Silent(t, k)
  {
    var p := st[j];
    assert PieceAt(ps, t, st, j);
    if k + 1 < st[j + 1] {
      NoMarkerInside(ps, t, st, j, k - p);
    } else if j + 1 < |ps| {
      NoMarkerAcross(ps, t, st, j + 1);
    } else {
      assert k + 1 == |t|;
    }
    if k >= p + 2 {
      NoMarkerInside(ps, t, st, j, k - 2 - p);
    } else if j > 0 {
      NoMarkerAcross(ps, t, st, j);
    }
  }

  /** The depth and the visible text after one more piece. */
  lemma {:induction false} ReferenceStep(ps: seq<Piece>, j: nat)
    requires j < |ps|
    ensures var d := Depth(ps[..j]); var x := ps[j];
      && Depth(ps[..j + 1]) == (match x case Chunk(_) => d case Opener => d + 1 case Closer => if d == 0 then 0 else d - 1)
      && Visible(ps[..j + 1]) == Visible(ps[..j]) + (if d == 0 && !x.Opener? then PieceText(x) else "")
  {
    assert ps[..j + 1][..j] == ps[..j];
  }

  /** A stretch: nothing happens, and at depth 0 it joins the visible text. */
  lemma TrackChunk(ps: seq<Piece>, t: string, st: seq<nat>, j: nat)
    requires Layout(ps, t, st) && Separated(ps) && j < |ps| && ps[j].Chunk? && Tracks(ps, t, st, j)
    ensures Tracks(ps, t, st, j + 1)
  {
    var p := st[j];
    var q := st[j + 1];
    var n := Reached(ps, st, j);
    ChunkQuiet(ps, t, st, j);
    ScanSilent(t, n, q);
    ReferenceStep(ps, j);
    assert PieceAt(ps, t, st, j);
    KeepStep(t, p, q, ScanUpTo(t, n));
  }

  /** The scan sees no marker from where it has got to up to the end of a stretch. */
  lemma ChunkQuiet(ps: seq<Piece>, t: string, st: seq<nat>, j: nat)
    requires Layout(ps, t, st) && Separated(ps) && j < |ps| && ps[j].Chunk?
    ensures Reached(ps, st, j) <= st[j + 1] <= |t|
    ensures forall k :: Reached(ps, st, j) <= k < st[j + 1] ==> Silent(t, k)
  {
    var p := st[j];
    var q := st[j + 1];
    var n := Reached(ps, st, j);
    assert PieceAt(ps, t, st, j);
    assert PlainPiece(ps[j]);
    if n == p {
      NoCloseBefore(ps, t, st, j);
      NoOpenAt(ps, t, st, j);
    }
    forall k | n <= k < q
      ensures Silent(t, k)
    {
      if k > p {
        ChunkSilent(ps, t, st, j, k);
      }
    }
  }

  /** Text the scan passes without a marker joins what the state stands for at depth 0. */
  lemma {:induction false} KeepStep(t: string, p: nat, q: nat, s: Scan)
    requires s.commentEnd <= p <= q <= |t|
    ensures Pending(t, q, s) == Pending(t, p, s) + (if s.depth == 0 then t[p..q] else "")
  {
    if s.depth == 0 {
      assert t[s.commentEnd..q] == t[s.commentEnd..p] + t[p..q];
    }
  }

  /** An opening marker: the depth rises, and at depth 0 the text since the resume point is
      kept. */
  lemma TrackOpener(ps: seq<Piece>, t: string, st: seq<nat>, j: nat)
    requires Layout(ps, t, st) && Separated(ps) && j < |ps| && ps[j].Opener? && Tracks(ps, t, st, j)
    ensures Tracks(ps, t, st, j + 1)
  {
    var p := st[j];
    assert PieceAt(ps, t, st, j);
    PieceChar(ps, t, st, j, 0);
    PieceChar(ps, t, st, j, 1);
    if j > 0 {
      NoMarkerAcross(ps, t, st, j);
      assert NeighboursAt(ps, j);
    }
    var s := ScanUpTo(t, p);
    assert OpensAt(t, p);
    assert Silent(t, p + 1);
    assert ScanUpTo(t, p + 2)
      == Scan(s.depth + 1, s.commentEnd, if s.depth == 0 then s.kept + [Slice(t, s.commentEnd, p)] else s.kept);
    ReferenceStep(ps, j);
    if s.depth == 0 {
      JoinAppend(s.kept, t[s.commentEnd..p]);
    }
  }

  /** Around a closing marker the scan sees nothing until the iteration just after it,
      which sees the marker close and no marker open. */
  lemma CloserSeen(ps: seq<Piece>, t: string, st: seq<nat>, j: nat)
    requires Layout(ps, t, st) && Separated(ps) && j < |ps| && ps[j].Closer?
    ensures st[j + 1] == st[j] + 2 <= |t|
    ensures ScanUpTo(t, st[j + 1]) == ScanUpTo(t, st[j])
    ensures !OpensAt(t, st[j + 1]) && ClosesBefore(t, st[j + 1])
  {
    var p := st[j];
    CloserChars(ps, t, st, j);
    CloserFollowed(ps, t, st, j);
    CloserPreceded(ps, t, st, j);
    var s := ScanUpTo(t, p);
    assert ScanStep(t, p, s) == s;
    assert ScanUpTo(t, p + 1) == s;
    assert ScanStep(t, p + 1, s) == s;
  }

  /** No closing marker ends just before a closing marker. */
  lemma CloserPreceded(ps: seq<Piece>, t: string, st: seq<nat>, j: nat)
    requires Layout(ps, t, st) && Separated(ps) && j < |ps| && ps[j].Closer?
    ensures !ClosesBefore(t, st[j])
  {
    NoCloseBefore(ps, t, st, j);
    if j > 0 {
      assert NeighboursAt(ps, j);
    }
  }

  /** A closing marker's two characters. */
  lemma CloserChars(ps: seq<Piece>, t: string, st: seq<nat>, j: nat)
    requires Layout(ps, t, st) && j < |ps| && ps[j].Closer?
    ensures st[j + 1] == st[j] + 2 <= |t| && t[st[j]] == '*' && t[st[j] + 1] == '/'
  {
    assert PieceAt(ps, t, st, j);
    PieceChar(ps, t, st, j, 0);
    PieceChar(ps, t, st, j, 1);
  }

  /** No opening marker begins at the slash of a closing marker, or just after it. */
  lemma CloserFollowed(ps: seq<Piece>, t: string, st: seq<nat>, j: nat)
    requires Layout(ps, t, st) && Separated(ps) && j < |ps| && ps[j].Closer?
    ensures !OpensAt(t, st[j] + 1) && !OpensAt(t, st[j + 1])
  {
    CloserChars(ps, t, st, j);
    if j + 1 < |ps| {
      NoMarkerAcross(ps, t, st, j + 1);
      NoOpenAt(ps, t, st, j + 1);
      assert NeighboursAt(ps, j + 1);
    }
  }

  /** A closing marker: the iteration after it lowers the depth; the text resumes after it
      when that closes the outermost comment, and a stray one stays in the text. Until
      that iteration the state is the one before the marker. */
  lemma TrackCloser(ps: seq<Piece>, t: string, st: seq<nat>, j: nat)
    requires Layout(ps, t, st) && Separated(ps) && j < |ps| && ps[j].Closer? && Tracks(ps, t, st, j)
    ensures Tracks(ps, t, st, j + 1)
    ensures ScanUpTo(t, st[j + 1]) == ScanUpTo(t, st[j])
  {
    var p := st[j];
    var q := st[j + 1];
    CloserSeen(ps, t, st, j);
    assert PieceAt(ps, t, st, j);
    assert Reached(ps, st, j) == p by {
      NoCloseBefore(ps, t, st, j);
      if j > 0 {
        assert NeighboursAt(ps, j);
      }
    }
    assert ScanUpTo(t, q + 1) == ScanStep(t, q, ScanUpTo(t, p));
    ScanBounds(t, p);
    CloseStep(t, p, ScanUpTo(t, p));
    ReferenceStep(ps, j);
  }

  /** The iteration just after a closing marker at `p`: the depth drops, clamped at 0, and
      a stray marker at depth 0 stays in the text. */
  lemma {:induction false} CloseStep(t: string, p: nat, s: Scan)
    requires p + 2 <= |t| && t[p..p + 2] == "*/" && !OpensAt(t, p + 2)
    requires s.depth >= 0 && s.commentEnd <= p
    ensures var s' := ScanStep(t, p + 2, s);
      && s'.depth == (if s.depth == 0 then 0 else s.depth - 1) && s'.commentEnd <= p + 2
      && Pending(t, p + 2, s') == Pending(t, p, s) + (if s.depth == 0 then "*/" else "")
  {
    assert ClosesBefore(t, p + 2) by {
      assert t[p..p + 2][0] == t[p] && t[p..p + 2][1] == t[p + 1];
    }
    if s.depth == 0 {
      assert t[s.commentEnd..p + 2] == t[s.commentEnd..p] + t[p..p + 2];
    } else if s.depth == 1 {
      assert t[p + 2..p + 2] == "";
    }
  }

  lemma {:induction false} TracksUpTo(ps: seq<Piece>, t: string, st: seq<nat>, j: nat)
    requires Layout(ps, t, st) && Separated(ps) && j <= |ps|
    ensures Tracks(ps, t, st, j)
  {
    if j > 0 {
      TracksUpTo(ps, t, st, j - 1);
      match ps[j - 1]
      case Chunk(_) => TrackChunk(ps, t, st, j - 1);
      case Opener => TrackOpener(ps, t, st, j - 1);
      case Closer => TrackCloser(ps, t, st, j - 1);
    }
  }

  /** The corrected scan removes exactly the comments, however deeply they nest and
      wherever they end, and drops a comment left open with everything after it. */
  lemma FixedBlockCommentsRemoved(ps: seq<Piece>)
    requires Separated(ps)
    ensures StripBlockCommentsFixedOf(Render(ps)) == Visible(ps)
  {
    var t := Render(ps);
    var st := Starts(ps);
    RenderLayout(ps);
    TracksUpTo(ps, t, st, |ps|);
    assert ps[..|ps|] == ps;
    if !(|ps| > 0 && ps[|ps| - 1].Closer?) {
      NoCloseBefore(ps, t, st, |ps|);
      assert Silent(t, |t|);
      assert ScanUpTo(t, |t| + 1) == ScanUpTo(t, |t|);
    }
    var s := ScanUpTo(t, |t| + 1);
    assert s == ScanUpTo(t, Reached(ps, st, |ps|));
    if s.depth == 0 {
      assert Slice(t, s.commentEnd, |t|) == t[s.commentEnd..|t|];
      JoinAppend(s.kept, t[s.commentEnd..|t|]);
    }
  }

  /** When no comment is open as the loop ends, the source's result is the corrected one:
      the iteration the source leaves out can then only meet a stray closing marker. */
  lemma AsWrittenMatchesFixed(t: string)
    requires ScanUpTo(t, |t|).depth == 0
    ensures StripBlockCommentsOf(t) == StripBlockCommentsFixedOf(t)
  {
    ScanBounds(t, |t|);
  }

  /** The source's scan removes exactly the comments, however deeply they nest, when every
      comment is closed and the text does not end with the marker that closes one. */
  lemma BlockCommentsRemoved(ps: seq<Piece>)
    requires Separated(ps) && Depth(ps) == 0
    requires |ps| > 0 && ps[|ps| - 1].Closer? ==> Depth(ps[..|ps| - 1]) == 0
    ensures StripBlockCommentsOf(Render(ps)) == Visible(ps)
  {
    var t := Render(ps);
    var st := Starts(ps);
    var n := |ps|;
    RenderLayout(ps);
    TracksUpTo(ps, t, st, n);
    assert ps[..n] == ps;
    if n > 0 && ps[n - 1].Closer? {
      TracksUpTo(ps, t, st, n - 1);
      TrackCloser(ps, t, st, n - 1);
      if n > 1 {
        assert NeighboursAt(ps, n - 1);
      }
    }
    AsWrittenMatchesFixed(t);
    FixedBlockCommentsRemoved(ps);
  }

  // ---------------------------------------------------------------------------
  // `strip_line_comments` and `strip_imports`: regular-expression substitutions.

  /** `line_comment_pattern.sub('', t)` with the pattern `//.*?(?=\n)`: from a `//`, the
      text up to (not including) the next line break is removed. A `//` with no line break
      after it is not matched, and then nothing after it can be either. */
  function StripLineCommentsOf(t: string): (r: string)
    ensures |r| <= |t|
    decreases |t|
  {
    if |t| == 0 then ""
    else if |t| >= 2 && t[0] == '/' && t[1] == '/' then
      match IndexOf(t[2..], "\n")
      case None => t
      case Some(k) => StripLineCommentsOf(t[2 + k..])
    else [t[0]] + StripLineCommentsOf(t[1..])
  }

  /** The first line break after index `i` of `t` is at `i + k`. */
  lemma NoBreakBefore(t: string, i: nat, k: nat)
    requires i <= |t| && IndexOf(t[i..], "\n") == Some(k)
    ensures i + k < |t| && t[i + k] == '\n'
    ensures forall j :: i <= j < i + k ==> t[j] != '\n'
  {
    assert t[i..][k..k + 1] == "\n";
    forall j | i <= j < i + k ensures t[j] != '\n' {
      assert !OccursAt(t[i..], "\n", j - i);
      assert t[i..][j - i..j - i + 1] == [t[j]];
    }
  }

  /** Removing line comments keeps every line break, so the line structure is intact. */
  lemma {:induction false} LineCommentsKeepLines(t: string)
    ensures Count(StripLineCommentsOf(t), '\n') == Count(t, '\n')
    decreases |t|
  {
    if |t| == 0 {
    } else if |t| >= 2 && t[0] == '/' && t[1] == '/' {
      match IndexOf(t[2..], "\n")
      case None =>
      case Some(k) =>
        NoBreakBefore(t, 2, k);
        LineCommentsKeepLines(t[2 + k..]);
        assert t == t[..2 + k] + t[2 + k..];
        CountConcat(t[..2 + k], t[2 + k..], '\n');
        CountAbsent(t[..2 + k], '\n');
    } else {
      LineCommentsKeepLines(t[1..]);
      assert t == [t[0]] + t[1..];
      CountConcat([t[0]], t[1..], '\n');
      CountConcat([t[0]], StripLineCommentsOf(t[1..]), '\n');
    }
  }

  /** Text with no `//` is left as it is. */
  lemma {:induction false} NoLineCommentUnchanged(t: string)
    requires forall i :: 0 <= i < |t| - 1 ==> !(t[i] == '/' && t[i + 1] == '/')
    ensures StripLineCommentsOf(t) == t
    decreases |t|
  {
    if |t| > 0 {
      forall i | 0 <= i < |t[1..]| - 1 ensures !(t[1..][i] == '/' && t[1..][i + 1] == '/') {
        assert t[1..][i] == t[i + 1] && t[1..][i + 1] == t[i + 2];
      }
      NoLineCommentUnchanged(t[1..]);
    }
  }

  /** A comment running to a line break is removed and the line break stays. */
  lemma LineCommentRemoved(c: string, rest: string)
    requires forall i :: 0 <= i < |c| ==> c[i] != '\n'
    ensures StripLineCommentsOf("//" + c + "\n" + rest) == "\n" + StripLineCommentsOf(rest)
  {
    var t := "//" + c + "\n" + rest;
    assert t[2..] == c + "\n" + rest;
    assert OccursAt(t[2..], "\n", |c|) by { assert t[2..][|c|..|c| + 1] == "\n"; }
    forall j | 0 <= j < |c| ensures !OccursAt(t[2..], "\n", j) {
      assert t[2..][j..j + 1] == [c[j]];
    }
    assert IndexOf(t[2..], "\n") == Some(|c|);
    assert t[2 + |c|..] == "\n" + rest;
    assert ("\n" + rest)[1..] == rest;
  }

  /** `import_pattern.sub('', t)` with the pattern `(import\s.*\n)`: from an `import`
      followed by a whitespace character, the text up to and including the next line break
      after that character is removed. The pattern has no word boundary, so `import` inside
      a longer word also matches; with no line break left, nothing matches any more. */
  function StripImportsOf(t: string): (r: string)
    ensures |r| <= |t|
    decreases |t|
  {
    if |t| == 0 then ""
    else if |t| >= 7 && t[..6] == "import" && IsSpace(t[6]) then
      match IndexOf(t[7..], "\n")
      case None => t
      case Some(k) => StripImportsOf(t[7 + k + 1..])
    else [t[0]] + StripImportsOf(t[1..])
  }

  /** A whole import line is removed. */
  lemma ImportLineRemoved(c: char, line: string, rest: string)
    requires IsSpace(c) && c != '\n' && forall i :: 0 <= i < |line| ==> line[i] != '\n'
    ensures StripImportsOf("import" + [c] + line + "\n" + rest) == StripImportsOf(rest)
  {
    var t := "import" + [c] + line + "\n" + rest;
    assert t[..6] == "import";
    assert t[7..] == line + "\n" + rest;
    assert OccursAt(t[7..], "\n", |line|) by { assert t[7..][|line|..|line| + 1] == "\n"; }
    forall j | 0 <= j < |line| ensures !OccursAt(t[7..], "\n", j) {
      assert t[7..][j..j + 1] == [line[j]];
    }
    assert IndexOf(t[7..], "\n") == Some(|line|);
    assert t[7 + |line| + 1..] == rest;
  }

  /** Text in which `import` does not occur is left as it is. */
  lemma {:induction false} NoImportUnchanged(t: string)
    requires forall i :: 0 <= i <= |t| ==> !OccursAt(t, "import", i)
    ensures StripImportsOf(t) == t
    decreases |t|
  {
    if |t| > 0 {
      if |t| >= 7 {
        assert !OccursAt(t, "import", 0);
        assert t[..6] == t[0..6];
      }
      forall i | 0 <= i <= |t[1..]| ensures !OccursAt(t[1..], "import", i) {
        OccursShift(t, "import", i);
      }
      NoImportUnchanged(t[1..]);
    }
  }

  // ---------------------------------------------------------------------------
  // Completions from a proc definition.

  /** `make_completions_from_proc_components`: the single `[label, insert]` pair, built by
      the same loop as in parser.py. */
  method MakeProcCompletions(procName: string, params: seq<string>, returnType: Option<string>, fileName: string)
    returns (completions: seq<Completion>)
    ensures completions == [Completion(ProcTrigger(procName, params, returnType, fileName), ProcInsertText(procName, params))]
  {
    var c := MakeProcCompletion(procName, params, returnType, fileName);
    completions := [c];
  }

  /** What `proc_pattern` captures in a definition: the name, the text between the
      parentheses and, after `->`, the return type (`None` when there is no arrow). */
  datatype ProcDefinitionMatch = ProcDefinitionMatch(name: string, paramsStr: string, returnType: Option<string>)

  /** What `proc_params_pattern` (`\s*([^,]+?)\s*(?:$|,)`) captures in one comma-separated
      piece: the piece without surrounding whitespace; when the piece is all whitespace the
      lazy group still needs one character, so it captures the piece's last character. */
  function FoundParam(piece: string): (r: string)
    requires |piece| > 0
    ensures |r| > 0
  {
    StripSpec(piece);
    var s := Strip(piece);
    if s == [] then [piece[|piece| - 1]] else s
  }

  /** `findall` over the pieces between commas: an empty piece gives no match. */
  function FoundParams(pieces: seq<string>): (r: seq<string>)
    ensures |r| <= |pieces|
  {
    if |pieces| == 0 then []
    else (if |pieces[0]| == 0 then [] else [FoundParam(pieces[0])]) + FoundParams(pieces[1..])
  }

  /** The parameter list of `make_completions_from_proc_definition`: the matches, except
      that a single blank match stands for no parameters. */
  function ParamsListOf(paramsStr: string): seq<string> {
    var found := FoundParams(Split(paramsStr, ","));
    if |found| == 1 && Strip(found[0]) == "" then [] else found
  }

  /** Parameter text that is only whitespace, or empty, gives no parameters. */
  lemma BlankParamsGiveNone(paramsStr: string)
    requires forall i :: 0 <= i < |paramsStr| ==> IsSpace(paramsStr[i])
    ensures ParamsListOf(paramsStr) == []
  {
    SplitWithout(paramsStr, ',');
    assert Split(paramsStr, ",") == [paramsStr];
    assert [paramsStr][1..] == [];
    StripSpec(paramsStr);
    if |paramsStr| > 0 {
      var last := [paramsStr[|paramsStr| - 1]];
      StripSpec(last);
    }
  }

  /** A parameter as written in a signature: non-empty, without commas and without
      surrounding whitespace. */
  predicate WrittenParam(p: string) {
    |p| > 0 && !IsSpace(p[0]) && !IsSpace(p[|p| - 1]) && forall i :: 0 <= i < |p| ==> p[i] != ','
  }

  /** A piece made of blank text and a written parameter is found as that parameter. */
  lemma FoundLeadParam(lead: string, p: string)
    requires forall i :: 0 <= i < |lead| ==> IsSpace(lead[i])
    requires WrittenParam(p)
    ensures forall i :: 0 <= i < |lead + p| ==> (lead + p)[i] != ','
    ensures FoundParam(lead + p) == p
  {
    forall i | 0 <= i < |lead + p| ensures (lead + p)[i] != ',' {
      if i < |lead| { assert (lead + p)[i] == lead[i]; } else { assert (lead + p)[i] == p[i - |lead|]; }
    }
    StripSpacePrefix(lead, p);
    StripFixed(p);
  }

  lemma {:induction false} FoundAfterLead(lead: string, ps: seq<string>)
    requires forall i :: 0 <= i < |lead| ==> IsSpace(lead[i])
    requires |ps| > 0 && forall i :: 0 <= i < |ps| ==> WrittenParam(ps[i])
    ensures FoundParams(Split(lead + Join(", ", ps), ",")) == ps
    decreases |ps|
  {
    var first := lead + ps[0];
    FoundLeadParam(lead, ps[0]);
    if |ps| == 1 {
      SplitWithout(first, ',');
      assert lead + Join(", ", ps) == first;
      assert FoundParams([first]) == [ps[0]] by { assert [first][1..] == []; }
    } else {
      var rest := Join(", ", ps[1..]);
      assert lead + Join(", ", ps) == first + [','] + (" " + rest);
      SplitAtFirst(first, " " + rest, ',');
      var tail := Split(" " + rest, ",");
      FoundAfterLead(" ", ps[1..]);
      assert FoundParams([first] + tail) == [ps[0]] + FoundParams(tail) by {
        assert ([first] + tail)[1..] == tail;
      }
      assert ps == [ps[0]] + ps[1..];
    }
  }

  /** Parameters written out with `, ` between them are found again, one for one. */
  lemma ParamsRoundTrip(ps: seq<string>)
    requires forall i :: 0 <= i < |ps| ==> WrittenParam(ps[i])
    ensures ParamsListOf(Join(", ", ps)) == ps
  {
    var text := Join(", ", ps);
    if |ps| == 0 {
      assert text == "";
      SplitWithout("", ',');
      assert FoundParams([""]) == [] by { assert [""][1..] == []; }
    } else {
      FoundAfterLead("", ps);
      assert "" + text == text;
      var found := FoundParams(Split(text, ","));
      assert found == ps;
      StripFixed(ps[0]);
      assert Strip(found[0]) != "";
    }
  }

  /** The completions of `make_completions_from_proc_definition`: none when the proc pattern
      does not match, otherwise the one pair for the captured name, parameters and return
      type. */
  function ProcDefinitionCompletionsOf(m: Option<ProcDefinitionMatch>, fileName: string): seq<Completion> {
    match m
    case None => []
    case Some(d) =>
      var params := ParamsListOf(d.paramsStr);
      [Completion(ProcTrigger(d.name, params, d.returnType, fileName), ProcInsertText(d.name, params))]
  }

  /** `make_completions_from_proc_definition`, from what the proc pattern captured. */
  method MakeProcCompletionsFromDefinition(m: Option<ProcDefinitionMatch>, fileName: string)
    returns (completions: seq<Completion>)
    ensures completions == ProcDefinitionCompletionsOf(m, fileName)
    ensures m.None? <==> completions == []
    ensures |completions| <= 1
  {
    if m == None {
      return [];
    }
    var paramsList := ParamsListOf(m.value.paramsStr);
    completions := MakeProcCompletions(m.value.name, paramsList, m.value.returnType, fileName);
  }

  // ---------------------------------------------------------------------------
  // Variable definitions and the definition list.

  /** `s[:k]` with Python's reading of a negative `k` as counted from the end. */
  function PyPrefix(s: string, k: int): (r: string)
    ensures |r| <= |s| && r == s[..|r|]
  {
    if k >= 0 then (if k <= |s| then s[..k] else s)
    else if |s| + k >= 0 then s[..|s| + k] else []
  }

  /** `make_completion_from_variable_definition`: the identifier is the stripped text before
      the first `:`; when there is none, `find` gives -1 and the slice drops the last
      character. */
  function VariableCompletionOf(definition: string, fileName: string): (r: Completion)
    ensures r.trigger == r.insertText + "\t " + fileName
  {
    var colonIndex := match IndexOf(definition, ":") case Some(i) => i as int case None => -1;
    var identifier := Strip(PyPrefix(definition, colonIndex));
    Completion(identifier + "\t " + fileName, identifier)
  }

  /** The identifier of `name: rest` is the stripped name. */
  lemma VariableCompletionIdentifier(name: string, rest: string, fileName: string)
    requires forall i :: 0 <= i < |name| ==> name[i] != ':'
    ensures VariableCompletionOf(name + ":" + rest, fileName).insertText == Strip(name)
  {
    var d := name + ":" + rest;
    assert OccursAt(d, ":", |name|) by { assert d[|name|..|name| + 1] == ":"; }
    forall j | 0 <= j < |name| ensures !OccursAt(d, ":", j) {
      assert d[j..j + 1] == [name[j]];
    }
    assert IndexOf(d, ":") == Some(|name|);
    assert d[..|name|] == name;
  }

  /** Without a `:` the identifier loses the definition's last character. */
  lemma VariableCompletionWithoutColon(definition: string, fileName: string)
    requires forall i :: 0 <= i < |definition| ==> definition[i] != ':'
    ensures VariableCompletionOf(definition, fileName).insertText
      == Strip(if |definition| > 0 then definition[..|definition| - 1] else "")
  {
  }

  /** `list(set(defs))`: every element once; of repeated elements the last one stays in
      place. */
  function Distinct<T(==, !new)>(s: seq<T>): (r: seq<T>)
    ensures forall x :: x in r <==> x in s
    ensures forall i, j :: 0 <= i < j < |r| ==> r[i] != r[j]
  {
    if |s| == 0 then []
    else
      var rest := Distinct(s[1..]);
      if s[0] in rest then rest else [s[0]] + rest
  }

  // ---------------------------------------------------------------------------
  // The dispatch of `get_completions_from_file_path`.

  /** What the other patterns say about the text of one definition: whether
      `proc_differentiator_pattern` finds a proc in it, the name `struct_pattern` captures,
      and what `proc_pattern` captures. */
  datatype Definition = Definition(
    isProc: bool,
    structName: Option<string>,
    procMatch: Option<ProcDefinitionMatch>)

  /** The completions for one definition: a struct gives `[name + '\t struct', name]`, any
      other non-proc definition nothing, and a proc goes to the proc builder. */
  function DefinitionCompletions(d: Definition, fileName: string): seq<Completion> {
    if !d.isProc then
      match d.structName
      case None => []
      case Some(n) => [Completion(n + "\t struct", n)]
    else ProcDefinitionCompletionsOf(d.procMatch, fileName)
  }

  /** The completions of a list of definition texts, in order; `shapeOf` is what the
      patterns make of a text, so equal texts are read alike. */
  function FileCompletionsOf(texts: seq<string>, shapeOf: string -> Definition, fileName: string): seq<Completion> {
    if |texts| == 0 then []
    else
      FileCompletionsOf(texts[..|texts| - 1], shapeOf, fileName)
        + DefinitionCompletions(shapeOf(texts[|texts| - 1]), fileName)
  }

  /** Each definition gives at most one completion, and none exactly when it is not a
      struct or a matching proc. */
  lemma DefinitionCompletionsAtMostOne(d: Definition, fileName: string)
    ensures |DefinitionCompletions(d, fileName)| <= 1
    ensures DefinitionCompletions(d, fileName) == []
      <==> (if d.isProc then d.procMatch.None? else d.structName.None?)
  {
  }

  /** A file gives no more completions than it has definitions. */
  lemma {:induction false} FileCompletionsBound(texts: seq<string>, shapeOf: string -> Definition, fileName: string)
    ensures |FileCompletionsOf(texts, shapeOf, fileName)| <= |texts|
  {
    if |texts| > 0 {
      FileCompletionsBound(texts[..|texts| - 1], shapeOf, fileName);
      DefinitionCompletionsAtMostOne(shapeOf(texts[|texts| - 1]), fileName);
    }
  }

  /** A completion is in the file's list exactly when one of its definitions gives it. */
  lemma {:induction false} FileCompletionsMembers(texts: seq<string>, shapeOf: string -> Definition, fileName: string, c: Completion)
    ensures c in FileCompletionsOf(texts, shapeOf, fileName)
      <==> exists t :: t in texts && c in DefinitionCompletions(shapeOf(t), fileName)
  {
    if |texts| > 0 {
      var init := texts[..|texts| - 1];
      var last := texts[|texts| - 1];
      FileCompletionsMembers(init, shapeOf, fileName, c);
      assert texts == init + [last];
      if c in FileCompletionsOf(texts, shapeOf, fileName) {
        if c !in DefinitionCompletions(shapeOf(last), fileName) {
          var t :| t in init && c in DefinitionCompletions(shapeOf(t), fileName);
          assert t in texts;
        }
      }
    }
  }

  /** `get_completions_from_file_path`, after the file has been read, its imports stripped
      and `definition_pattern` applied: `found` is what that pattern found, and `shapeOf`
      stands for the struct, proc-differentiator and proc patterns applied to one text. */
  method CompletionsFromFilePath(path: string, found: seq<string>, shapeOf: string -> Definition)
    returns (completions: seq<Completion>)
    ensures completions == FileCompletionsOf(Distinct(found), shapeOf, PathSplit(path).1)
    ensures forall c :: (c in completions
      <==> exists t :: t in found && c in DefinitionCompletions(shapeOf(t), PathSplit(path).1))
    ensures |completions| <= |Distinct(found)|
  {
    var definitions := Distinct(found);
    completions := [];
    var fileName := PathSplit(path).1;
    for i := 0 to |definitions|
      invariant completions == FileCompletionsOf(definitions[..i], shapeOf, fileName)
    {
      var definition := shapeOf(definitions[i]);
      var more: seq<Completion> := [];
      if !definition.isProc {
        if definition.structName.Some? {
          var structName := definition.structName.value;
          more := [Completion(structName + "\t struct", structName)];
        }
      } else {
        more := MakeProcCompletionsFromDefinition(definition.procMatch, fileName);
      }
      FileCompletionsSnoc(definitions, i, shapeOf, fileName);
      completions := completions + more;
    }
    assert definitions[..|definitions|] == definitions;
    FileCompletionsBound(definitions, shapeOf, fileName);
    forall c ensures c in completions
      <==> exists t :: t in found && c in DefinitionCompletions(shapeOf(t), fileName)
    {
      FileCompletionsMembers(definitions, shapeOf, fileName, c);
    }
  }

  lemma FileCompletionsSnoc(texts: seq<string>, i: nat, shapeOf: string -> Definition, fileName: string)
    requires i < |texts|
    ensures FileCompletionsOf(texts[..i + 1], shapeOf, fileName)
      == FileCompletionsOf(texts[..i], shapeOf, fileName) + DefinitionCompletions(shapeOf(texts[i]), fileName)
  {
    assert texts[..i + 1][..i] == texts[..i];
  }

  // ---------------------------------------------------------------------------
  // `view_is_odin` and `on_query_completions`.

  /** `view_is_odin`: the syntax setting names the Odin syntax file, or the file name ends
      in `.odin` in any letter case. `path[-5:]` is the whole path when it is shorter than
      five characters, which can then never equal `.odin`. */
  function ViewIsOdin(syntax: Option<string>, path: Option<string>): (r: bool)
    ensures r <==>
      || (syntax.Some? && Contains(syntax.value, "odin.sublime-syntax"))
      || (path.Some? && |path.value| >= 5 && Lower(path.value[|path.value| - 5..]) == ".odin")
  {
    if syntax.Some? && Contains(syntax.value, "odin.sublime-syntax") then true
    else if path.Some? then
      var p := path.value;
      var tail := if |p| >= 5 then p[|p| - 5..] else p;
      assert |p| < 5 ==> |Lower(tail)| != 5;
      Lower(tail) == ".odin"
    else false
  }

  /** A file whose name ends in `.odin` or `.ODIN` is Odin whatever the syntax setting. */
  lemma OdinExtension(syntax: Option<string>, name: string)
    ensures ViewIsOdin(syntax, Some(name + ".odin"))
    ensures ViewIsOdin(syntax, Some(name + ".ODIN"))
  {
    assert (name + ".odin")[|name|..] == ".odin";
    assert (name + ".ODIN")[|name|..] == ".ODIN";
    assert Lower(".ODIN") == ".odin";
  }

  /** `before_dot`: the line's text before its last `.`, or `None` when it has no `.`. */
  function BeforeDotOf(line: string): (r: Option<string>)
    ensures r.None? <==> forall j :: 0 <= j < |line| ==> line[j] != '.'
    ensures r.Some? ==>
      && |r.value| < |line| && line[..|r.value|] == r.value && line[|r.value|] == '.'
      && forall j :: |r.value| < j < |line| ==> line[j] != '.'
  {
    match LastIndexOf(line, '.')
    case None => None
    case Some(i) => Some(line[..i])
  }

  /** The module name completions offered when the line has no `.`. */
  function ModuleCompletionsOf(mods: seq<string>): (r: seq<Completion>)
    ensures |r| == |mods|
  {
    if |mods| == 0 then []
    else ModuleCompletionsOf(mods[..|mods| - 1]) + [Completion("Module: " + mods[|mods| - 1], mods[|mods| - 1])]
  }

  /** The `i`-th module completion offers the `i`-th module. */
  lemma {:induction false} ModuleCompletionsAt(mods: seq<string>, i: nat)
    requires i < |mods|
    ensures ModuleCompletionsOf(mods)[i] == Completion("Module: " + mods[i], mods[i])
  {
    if i < |mods| - 1 {
      ModuleCompletionsAt(mods[..|mods| - 1], i);
    }
  }

  /** The loop appending one module completion per module. */
  method AppendModuleCompletions(completions: seq<Completion>, mods: seq<string>) returns (r: seq<Completion>)
    ensures r == completions + ModuleCompletionsOf(mods)
  {
    r := completions;
    for i := 0 to |mods|
      invariant r == completions + ModuleCompletionsOf(mods[..i])
    {
      assert mods[..i + 1][..i] == mods[..i];
      AppendAssoc(completions, ModuleCompletionsOf(mods[..i]), [Completion("Module: " + mods[i], mods[i])]);
      r := r + [Completion("Module: " + mods[i], mods[i])];
    }
    assert mods[..|mods|] == mods;
  }

  /** The lists of a sequence concatenated last first, as `for path in reversed(paths)`
      builds them up. */
  function ReversedConcat(lists: seq<seq<Completion>>): seq<Completion> {
    if |lists| == 0 then [] else ReversedConcat(lists[1..]) + lists[0]
  }

  /** Concatenating in reverse turns a concatenation of lists around. */
  lemma {:induction false} ReversedConcatAppend(a: seq<seq<Completion>>, b: seq<seq<Completion>>)
    ensures ReversedConcat(a + b) == ReversedConcat(b) + ReversedConcat(a)
    decreases |a|
  {
    if |a| == 0 {
      assert a + b == b;
    } else {
      assert (a + b)[1..] == a[1..] + b;
      ReversedConcatAppend(a[1..], b);
      AppendAssoc(ReversedConcat(b), ReversedConcat(a[1..]), a[0]);
    }
  }

  /** The loop over `reversed(paths)`, appending each file's completions. */
  method AppendReversed(completions: seq<Completion>, lists: seq<seq<Completion>>) returns (r: seq<Completion>)
    ensures r == completions + ReversedConcat(lists)
  {
    r := completions;
    var j := |lists|;
    while j > 0
      invariant 0 <= j <= |lists|
      invariant r == completions + ReversedConcat(lists[j..])
    {
      j := j - 1;
      assert lists[j..][1..] == lists[j + 1..];
      AppendAssoc(completions, ReversedConcat(lists[j + 1..]), lists[j]);
      r := r + lists[j];
    }
  }

  /** The completions `on_query_completions` collects: the module names (user modules first)
      when the line has no `.`, then every file's completions, last file first. */
  function QueryCompletionsOf(
    beforeDot: Option<string>, userModules: seq<string>, coreModules: seq<string>,
    fileCompletions: seq<seq<Completion>>): seq<Completion>
  {
    (if beforeDot.None? then ModuleCompletionsOf(userModules) + ModuleCompletionsOf(coreModules) else [])
    + ReversedConcat(fileCompletions)
  }

  /** The collecting part of `on_query_completions`. */
  method GatherCompletions(
    beforeDot: Option<string>, userModules: seq<string>, coreModules: seq<string>,
    fileCompletions: seq<seq<Completion>>)
    returns (completions: seq<Completion>)
    ensures completions == QueryCompletionsOf(beforeDot, userModules, coreModules, fileCompletions)
  {
    completions := [];
    if beforeDot == None {
      completions := AppendModuleCompletions(completions, userModules);
      completions := AppendModuleCompletions(completions, coreModules);
    }
    completions := AppendReversed(completions, fileCompletions);
  }

  /** What `on_query_completions` returns: `None` for a view that is not Odin, the
      `IndexError` raised when the file has no `package` line, or the completions. */
  datatype QueryResult = NotOdin | MissingPackage | Completions(completions: seq<Completion>)

  /** The event listener's state. */
  class CompletionListener {
    var currentModule: string
    var includedCoreModules: seq<string>
    var includedUserModules: seq<string>
    var beforeDot: Option<string>

    constructor()
      ensures currentModule == "" && includedCoreModules == [] && includedUserModules == []
      ensures beforeDot == None
    {
      currentModule := "";
      includedCoreModules := [];
      includedUserModules := [];
      beforeDot := None;
    }

    /** `on_query_completions`. The view's syntax setting and file name, the text of the
        line at the cursor, what the package and import patterns find in the active file,
        and the completions of every Odin file (in the order the file walk yields them) are
        inputs. */
    method OnQueryCompletions(
      syntax: Option<string>, path: Option<string>, line: string,
      packages: seq<string>, coreModules: seq<string>, userModules: seq<string>,
      fileCompletions: seq<seq<Completion>>)
      returns (r: QueryResult)
      modifies this
      ensures !ViewIsOdin(syntax, path) ==> r == NotOdin && unchanged(this)
      ensures ViewIsOdin(syntax, path) ==> beforeDot == BeforeDotOf(Strip(line))
      ensures ViewIsOdin(syntax, path) && |packages| == 0 ==>
        && r == MissingPackage
        && currentModule == old(currentModule) && includedCoreModules == old(includedCoreModules)
        && includedUserModules == old(includedUserModules)
      ensures ViewIsOdin(syntax, path) && |packages| > 0 ==>
        && currentModule == packages[0] && includedCoreModules == coreModules
        && includedUserModules == userModules
        && r == Completions(QueryCompletionsOf(beforeDot, userModules, coreModules, fileCompletions))
    {
      if !ViewIsOdin(syntax, path) {
        return NotOdin;
      }
      var currLine := Strip(line);
      beforeDot := BeforeDotOf(currLine);
      if |packages| == 0 {
        return MissingPackage;
      }
      currentModule := packages[0];
      includedCoreModules := coreModules;
      includedUserModules := userModules;
      var completions := GatherCompletions(beforeDot, includedUserModules, includedCoreModules, fileCompletions);
      r := Completions(completions);
    }
  }
}
