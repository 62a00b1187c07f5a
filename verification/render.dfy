/** The text listing of `fmt_pretty`/`fmt_node` (src/tree.rs): one line per
    node in pre-order, each line two spaces per level of depth, then `[x]`
    for a done node or `[ ]` otherwise, a space, the title, and
    ` (id: N)`. Lines are kept as a sequence; the source ends each with a
    newline. A "line" here is the text of one `writeln!` call: a title that
    itself holds a line break spreads that one line over several printed
    lines. */
module Render {
  import opened Forest
  import opened Walk
  import Decimal
  import Splice

  /** What one line says about its node. */
  datatype LineView = LineView(depth: nat, done: bool, title: string, id: nat)

  const IdOpen: string := " (id: "

  /** Two spaces per level. */
  function Indent(depth: nat): string {
    if depth == 0 then "" else "  " + Indent(depth - 1)
  }

  lemma {:induction false} IndentSpaces(depth: nat)
    ensures |Indent(depth)| == 2 * depth
    ensures forall i :: 0 <= i < |Indent(depth)| ==> Indent(depth)[i] == ' '
  {
    if depth > 0 {
      IndentSpaces(depth - 1);
    }
  }

  function Marker(done: bool): string {
    if done then "[x]" else "[ ]"
  }

  function FormatView(v: LineView): string {
    Indent(v.depth) + FormatMarked(v.done, Label(v.title, v.id))
  }

  /** The text after the indentation: marker, space, label. */
  function FormatMarked(done: bool, l: Label): string {
    Marker(done) + " " + FormatLabel(l)
  }

  /** The line `fmt_node` writes for node `n` at `depth`. */
  function FormatLine(n: Node, depth: nat): string {
    FormatView(LineView(depth, n.done, n.title, n.id))
  }

  /** The listing of the whole forest: roots in order, each followed by its
      descendants. */
  function Pretty(t: Tree): (lines: seq<string>)
    requires WellFormed(t)
    ensures |lines| == |Preorder(t)|
  {
    var w := Preorder(t);
    OutlineBounds(t, t.roots, 0, 0);
    seq(|w|, j requires 0 <= j < |w| => FormatLine(t.index[w[j].id], w[j].depth))
  }

  /** Number of spaces a string starts with. */
  function LeadingSpaces(s: string): (k: nat)
    ensures k <= |s|
  {
    if s == [] || s[0] != ' ' then 0 else 1 + LeadingSpaces(s[1..])
  }

  /** Number of digits a string ends with. */
  function TrailingDigits(s: string): (k: nat)
    ensures k <= |s|
  {
    if s == [] || !Decimal.IsDigit(s[|s| - 1]) then 0 else 1 + TrailingDigits(s[..|s| - 1])
  }

  /** What follows the marker: a title and an id. */
  datatype Label = Label(title: string, id: nat)

  function FormatLabel(l: Label): string {
    JoinLabel(l.title, Decimal.FromNat(l.id))
  }

  /** A title and the decimal text of an id, as `title (id: digits)`. */
  function JoinLabel(title: string, digits: string): string {
    title + IdOpen + digits + ")"
  }

  /** Splits `title (id: digits)` into title and digits. The title may hold
      anything, brackets, digits and ` (id: ` included: the digits are the
      run of digits before the final `)`, and the title is what precedes the
      ` (id: ` in front of that run. `b` and `e` are where the digits begin
      and end. */
  function SplitLabel(s: string): (r: Option<(string, string)>)
    ensures r.Some? ==> Decimal.IsCanonical(r.value.1)
  {
    if s == [] || s[|s| - 1] != ')' then None
    else
      var e := |s| - 1;
      var b := e - TrailingDigits(s[..e]);
      if b < |IdOpen| || s[b - |IdOpen|..b] != IdOpen || !Decimal.IsCanonical(s[b..e]) then None
      else Some((s[..b - |IdOpen|], s[b..e]))
  }

  /** Reads `title (id: N)` back as a title and an id. */
  function ParseLabel(s: string): Option<Label> {
    match SplitLabel(s)
    case None => None
    case Some(p) => Some(Label(p.0, Decimal.ToNat(p.1)))
  }

  /** Reads what follows the indentation: a marker, a space and a label. */
  function ParseMarked(rest: string): Option<(bool, Label)> {
    if |rest| < 4 || rest[0] != '[' || rest[2] != ']' || rest[3] != ' '
       || (rest[1] != 'x' && rest[1] != ' ') then None
    else
      match ParseLabel(rest[4..])
      case None => None
      case Some(l) => Some((rest[1] == 'x', l))
  }

  /** Reads a listing line back: an even run of spaces, then a marked label. */
  function ParseLine(line: string): Option<LineView> {
    var k := LeadingSpaces(line);
    if k % 2 != 0 then None
    else
      match ParseMarked(line[k..])
      case None => None
      case Some(p) => Some(LineView(k / 2, p.0, p.1.title, p.1.id))
  }

  lemma {:induction false} LeadingSpacesPrefix(p: string, s: string)
    requires forall i :: 0 <= i < |p| ==> p[i] == ' '
    requires s != [] && s[0] != ' '
    ensures LeadingSpaces(p + s) == |p|
    decreases |p|
  {
    if p != [] {
      assert (p + s)[1..] == p[1..] + s;
      LeadingSpacesPrefix(p[1..], s);
    }
  }

  lemma {:induction false} LeadingSpacesAreSpaces(s: string)
    ensures forall i :: 0 <= i < LeadingSpaces(s) ==> s[i] == ' '
    decreases |s|
  {
    if s != [] && s[0] == ' ' {
      LeadingSpacesAreSpaces(s[1..]);
    }
  }

  lemma {:induction false} TrailingDigitsSuffix(h: string, ds: string)
    requires Decimal.AllDigits(ds)
    requires h != [] && !Decimal.IsDigit(h[|h| - 1])
    ensures TrailingDigits(h + ds) == |ds|
    decreases |ds|
  {
    if ds != [] {
      var s := h + ds;
      assert s[..|s| - 1] == h + ds[..|ds| - 1];
      TrailingDigitsSuffix(h, ds[..|ds| - 1]);
    } else {
      assert h + ds == h;
    }
  }

  lemma SplitJoin(title: string, digits: string)
    requires Decimal.IsCanonical(digits)
    ensures SplitLabel(JoinLabel(title, digits)) == Some((title, digits))
  {
    var head := title + IdOpen;
    var s := JoinLabel(title, digits);
    var e := |s| - 1;
    assert s == head + digits + ")";
    assert s[..e] == head + digits;
    assert head[|head| - 1] == ' ';
    TrailingDigitsSuffix(head, digits);
    var b := e - TrailingDigits(s[..e]);
    assert b == |head|;
    assert s[b..e] == digits;
    assert s[b - |IdOpen|..b] == IdOpen;
    assert s[..b - |IdOpen|] == title;
  }

  lemma JoinSplit(s: string, title: string, digits: string)
    requires SplitLabel(s) == Some((title, digits))
    ensures JoinLabel(title, digits) == s
  {
  }

  lemma LabelRoundTrip(l: Label)
    ensures ParseLabel(FormatLabel(l)) == Some(l)
  {
    SplitJoin(l.title, Decimal.FromNat(l.id));
    Decimal.ToNatFromNat(l.id);
  }

  lemma LabelInverse(s: string, l: Label)
    requires ParseLabel(s) == Some(l)
    ensures FormatLabel(l) == s
  {
    var p := SplitLabel(s).value;
    Decimal.FromNatToNat(p.1);
    JoinSplit(s, p.0, p.1);
  }

  lemma MarkedRoundTrip(done: bool, l: Label)
    ensures ParseMarked(FormatMarked(done, l)) == Some((done, l))
  {
    var lab := FormatLabel(l);
    var tail := Marker(done) + " " + lab;
    assert tail == [Marker(done)[0], Marker(done)[1], Marker(done)[2], ' '] + lab;
    assert tail[4..] == lab;
    LabelRoundTrip(l);
  }

  lemma MarkedInverse(rest: string, done: bool, l: Label)
    requires ParseMarked(rest) == Some((done, l))
    ensures FormatMarked(done, l) == rest
  {
    LabelInverse(rest[4..], l);
    assert rest[..4] == Marker(done) + " ";
    assert rest == rest[..4] + rest[4..];
  }

  /** Every line the renderer writes reads back as the node it was written
      for: depth, completion, title and id. */
  lemma ParseFormat(v: LineView)
    ensures ParseLine(FormatView(v)) == Some(v)
  {
    var tail := FormatMarked(v.done, Label(v.title, v.id));
    MarkedRoundTrip(v.done, Label(v.title, v.id));
    ParseIndented(v.depth, tail, (v.done, Label(v.title, v.id)));
  }

  /** Indentation is read back as the depth it was written for, whatever
      marked label follows it. */
  lemma ParseIndented(depth: nat, tail: string, p: (bool, Label))
    requires ParseMarked(tail) == Some(p)
    ensures ParseLine(Indent(depth) + tail) == Some(LineView(depth, p.0, p.1.title, p.1.id))
  {
    var ind := Indent(depth);
    var line := ind + tail;
    IndentSpaces(depth);
    assert tail != [] && tail[0] == '[';
    LeadingSpacesPrefix(ind, tail);
    assert LeadingSpaces(line) == 2 * depth;
    assert line[2 * depth..] == tail;
    ParseLineOf(line, depth, p);
  }

  lemma ParseLineOf(line: string, depth: nat, p: (bool, Label))
    requires LeadingSpaces(line) == 2 * depth && ParseMarked(line[2 * depth..]) == Some(p)
    ensures ParseLine(line) == Some(LineView(depth, p.0, p.1.title, p.1.id))
  {
    var k := 2 * depth;
    assert k % 2 == 0 && k / 2 == depth;
  }

  /** A line the parser accepts is exactly the line the renderer writes for
      what the parser read: the listing format has one spelling per node. */
  lemma FormatParse(line: string, v: LineView)
    requires ParseLine(line) == Some(v)
    ensures FormatView(v) == line
  {
    var k := LeadingSpaces(line);
    var rest := line[k..];
    var p := ParseMarked(rest).value;
    assert v == LineView(k / 2, p.0, p.1.title, p.1.id);
    MarkedInverse(rest, p.0, p.1);
    LeadingIndent(line);
  }

  /** An even run of leading spaces is the indentation of half its length. */
  lemma LeadingIndent(line: string)
    requires LeadingSpaces(line) % 2 == 0
    ensures line == Indent(LeadingSpaces(line) / 2) + line[LeadingSpaces(line)..]
  {
    var k := LeadingSpaces(line);
    LeadingSpacesAreSpaces(line);
    IndentSpaces(k / 2);
    assert line[..k] == Indent(k / 2);
    assert line == line[..k] + line[k..];
  }

  /** What the line for walk entry `e` should say: the entry's depth and
      id, and its node's completion and title. */
  function ViewOf(t: Tree, e: Entry): LineView
    requires e.id in t.index
  {
    LineView(e.depth, t.index[e.id].done, t.index[e.id].title, e.id)
  }

  /** Line `j` of the listing reads back as entry `j` of the pre-order walk. */
  lemma PrettyReadsBack(t: Tree)
    requires WellFormed(t)
    ensures var lines, w := Pretty(t), Preorder(t);
            forall j :: 0 <= j < |lines| ==> w[j].id in t.index && ParseLine(lines[j]) == Some(ViewOf(t, w[j]))
  {
    var lines, w := Pretty(t), Preorder(t);
    OutlineBounds(t, t.roots, 0, 0);
    forall j | 0 <= j < |lines|
      ensures w[j].id in t.index && ParseLine(lines[j]) == Some(ViewOf(t, w[j]))
    {
      assert w[j] in w;
      ParseFormat(ViewOf(t, w[j]));
    }
  }

  /** Lines that read back, one for one, as the entries of a walk that
      meets every indexed id once. */
  ghost predicate ReadsAsWalk(t: Tree, lines: seq<string>, w: seq<Entry>) {
    && |lines| == |w| == |t.index|
    && (forall j :: 0 <= j < |w| ==> w[j].id in t.index && ParseLine(lines[j]) == Some(ViewOf(t, w[j])))
    && (forall k :: k in t.index ==> exists j :: 0 <= j < |w| && w[j].id == k)
    && (forall i, j :: 0 <= i < j < |w| ==> w[i].id != w[j].id)
  }

  /** One line per indexed node and no other, stated of the lines alone. */
  ghost predicate ListsEachNodeOnce(t: Tree, lines: seq<string>) {
    && |lines| == |t.index|
    && (forall j :: 0 <= j < |lines| ==> ParseLine(lines[j]).Some? && ParseLine(lines[j]).value.id in t.index)
    && (forall k :: k in t.index ==> exists j :: 0 <= j < |lines| && ParseLine(lines[j]).value.id == k)
    && (forall i, j :: 0 <= i < j < |lines| ==> ParseLine(lines[i]).value.id != ParseLine(lines[j]).value.id)
  }

  lemma WalkListsEachNodeOnce(t: Tree, lines: seq<string>, w: seq<Entry>)
    requires ReadsAsWalk(t, lines, w)
    ensures ListsEachNodeOnce(t, lines)
  {
  }

  /** The listing of a valid tree has one line (one `writeln!`) per
      indexed node and no other: every line reads back as an indexed node,
      every indexed id is read back from some line, and no two lines read
      back the same id. */
  lemma PrettyListsEachNodeOnce(t: Tree)
    requires Valid(t)
    ensures ListsEachNodeOnce(t, Pretty(t))
  {
    ValidWalk(t);
    PrettyReadsBack(t);
    assert ReadsAsWalk(t, Pretty(t), Preorder(t));
    WalkListsEachNodeOnce(t, Pretty(t), Preorder(t));
  }

  /** A fresh tree renders as nothing. */
  lemma PrettyEmpty()
    ensures Pretty(Empty()) == []
  {
    EmptyValid();
  }

  /** `AddRoot` adds exactly one unindented, unchecked line at the end of
      the listing and leaves every earlier line as it was. */
  lemma PrettyAfterAddRoot(t: Tree, title: string)
    requires Valid(t)
    ensures var r := AddRoot(t, title);
            Pretty(r.tree) == Pretty(t) + [FormatLine(NewNode(r.id, title), 0)]
  {
    var r := AddRoot(t, title);
    AddRootValid(t, title);
    var w, w' := Preorder(t), Preorder(r.tree);
    OutlineBounds(t, t.roots, 0, 0);
    assert forall j :: 0 <= j < |w| ==> w'[j] == w[j] && w[j] in w;
  }

  /** `Toggle` of an indexed id rewrites the one line of that node, with its
      marker flipped, and no other line; an unknown id changes nothing. */
  lemma PrettyAfterToggle(t: Tree, id: nat)
    requires Valid(t)
    ensures var lines, lines' := Pretty(t), Pretty(Toggle(t, id).tree);
            var w := Preorder(t);
            && |lines'| == |lines|
            && forall j :: 0 <= j < |lines| ==>
                 lines'[j] == if w[j].id == id && id in t.index then FormatLine(t.index[id].(done := !t.index[id].done), w[j].depth)
                              else lines[j]
  {
    ToggleValid(t, id);
    OutlineBounds(t, t.roots, 0, 0);
    var w := Preorder(t);
    assert forall j :: 0 <= j < |w| ==> w[j] in w;
  }

  /** When the walk of `t'` is that of `t` with a leaf `n` spliced in at
      `j`, and every node of `t` prints the same in `t'`, the listing of
      `t'` is that of `t` with `n`'s line spliced in at `j`. */
  lemma PrettySplice(t: Tree, t': Tree, n: Node, i: nat, j: nat)
    requires WellFormed(t) && WellFormed(t')
    requires Splice.SplicedAt(Preorder(t), Preorder(t'), n.id, i, j)
    requires n.id in t'.index && t'.index[n.id].(children := []) == n.(children := [])
    requires forall k :: k in t.index ==> k in t'.index && t'.index[k].(children := []) == t.index[k].(children := [])
    ensures var lines := Pretty(t);
            Pretty(t') == lines[..j] + [FormatLine(n, Preorder(t)[i].depth + 1)] + lines[j..]
  {
    var w, w' := Preorder(t), Preorder(t');
    var lines, lines' := Pretty(t), Pretty(t');
    OutlineBounds(t, t.roots, 0, 0);
    forall m | 0 <= m < |lines'| && m != j
      ensures lines'[m] == lines[if m < j then m else m - 1]
    {
      var e := if m < j then w[m] else w[m - 1];
      assert w'[m] == e && e in w;
      SameLine(t, t', e.id, e.depth);
    }
    InsertLine(lines, lines', FormatLine(n, w[i].depth + 1), j);
  }

  /** Pointwise description of inserting one line at `j`. */
  lemma InsertLine(lines: seq<string>, lines': seq<string>, x: string, j: nat)
    requires j <= |lines| && |lines'| == |lines| + 1 && lines'[j] == x
    requires forall m :: 0 <= m < |lines'| && m != j ==> lines'[m] == lines[if m < j then m else m - 1]
    ensures lines' == lines[..j] + [x] + lines[j..]
  {
  }

  /** A node whose fields other than its children are unchanged prints the
      same line. */
  lemma SameLine(t: Tree, t': Tree, k: nat, depth: nat)
    requires k in t.index && k in t'.index
    requires t'.index[k].(children := []) == t.index[k].(children := [])
    ensures FormatLine(t'.index[k], depth) == FormatLine(t.index[k], depth)
  {
    var n, n' := t.index[k], t'.index[k];
    assert n'.done == n.done && n'.title == n.title && n'.id == n.id;
  }

  /** `AddChild` under a known parent splices one open line for the new
      node into the listing, one level below the parent, directly after
      the last line of the parent's existing subtree; every other line
      stays as it was. Under an unknown parent the listing is unchanged. */
  lemma PrettyAfterAddChild(t: Tree, parentId: nat, title: string)
    requires Valid(t)
    ensures var lines, lines' := Pretty(t), Pretty(AddChild(t, parentId, title).tree);
            var w := Preorder(t);
            && (parentId !in t.index ==> lines' == lines)
            && (parentId in t.index ==>
                  exists i: nat, j: nat ::
                    && i < j <= |lines|
                    && w[i].id == parentId
                    && (forall m :: i < m < j ==> w[i].depth < w[m].depth)
                    && (j < |w| ==> w[j].depth <= w[i].depth)
                    && lines' == lines[..j] + [FormatLine(NewNode(t.nextId, title), w[i].depth + 1)] + lines[j..])
  {
    if parentId in t.index {
      var t' := AddChild(t, parentId, title).tree;
      var w := Preorder(t);
      Splice.AddChildWalk(t, parentId, title);
      var i: nat, j: nat :| i < |w| && w[i].id == parentId && Splice.SplicedAt(w, Preorder(t'), t.nextId, i, j);
      PrettySplice(t, t', NewNode(t.nextId, title), i, j);
    }
  }

  /** The first line of the listing src/main.rs prints: a root, open. */
  lemma LineExampleRoot()
    ensures FormatLine(Node(1, "Inbox", false, []), 0) == "[ ] Inbox (id: 1)"
  {
    assert Decimal.FromNat(1) == "1";
    assert FormatLabel(Label("Inbox", 1)) == "Inbox (id: 1)";
    assert FormatMarked(false, Label("Inbox", 1)) == "[ ] Inbox (id: 1)";
  }
}
