/** `numberHeadings`: chapter and section numbers for the headings of one
    chapter document, and the chapter's title and section list. */
module Numbering {
  import opened Wrappers
  import opened Strings
  import opened Markdown
  import opened Seqs

  const SummaryMarker: string := "まとめ"
  const ExerciseMarker: string := "演習"

  /** The text run put in front of a level-1 heading. */
  function ChapterPrefix(chapter: nat): string {
    "第" + Decimal(chapter) + "章 "
  }

  /** The text run put in front of a numbered level-2 heading. */
  function SectionPrefix(chapter: nat, section: nat): string {
    Decimal(chapter) + "." + Decimal(section) + " "
  }

  /** The test that leaves a level-2 heading unnumbered, on its trimmed
      first-child literal. */
  function IsUnnumbered(literal: string): bool {
    var text := Trim(literal);
    text == SummaryMarker || IndexOf(text, ExerciseMarker) >= 0
  }

  /** A level-2 heading stays unnumbered exactly when its trimmed text is
      the summary marker or the exercise marker occurs in it anywhere. */
  lemma UnnumberedMeans(literal: string)
    ensures IsUnnumbered(literal) <==> Trim(literal) == SummaryMarker || Contains(literal, ExerciseMarker)
  {
    assert forall k :: 0 <= k < |ExerciseMarker| ==> !IsWhitespace(ExerciseMarker[k]);
    ContainsTrimmed(literal, ExerciseMarker);
  }

  predicate IsChapterHeading(n: Node) {
    n.Heading? && n.level == 1
  }

  predicate IsSectionHeading(n: Node) {
    n.Heading? && n.level == 2
  }

  /** `heading.firstChild.literal`, when there is a first child. */
  function FirstLiteral(n: Node): Option<string> {
    if n.Heading? && |n.children| > 0 then Literal(n.children[0]) else None
  }

  /** A level-2 heading that receives a section number. */
  predicate IsNumberedSection(n: Node) {
    IsSectionHeading(n) && FirstLiteral(n).Some? && !IsUnnumbered(FirstLiteral(n).value)
  }

  /** A node `numberHeadings` can pass without a TypeError: a level-1
      heading has a first child, a level-2 heading a first child with a
      literal. */
  predicate Readable(n: Node) {
    (IsChapterHeading(n) ==> |n.children| > 0) &&
    (IsSectionHeading(n) ==> FirstLiteral(n).Some?)
  }

  predicate WellFormed(xs: seq<Node>) {
    forall i :: 0 <= i < |xs| ==> Readable(xs[i])
  }

  /** The TypeError thrown at top-level position `index`: reading
      `.literal` of a missing first child, or `.trim()` of a null literal. */
  datatype NumberingError = FirstChildIsNull(index: nat) | LiteralIsNull(index: nat)

  /** The value `numberHeadings` returns. */
  datatype ChapterInfo = ChapterInfo(chapterTitle: Option<string>, sections: seq<string>)

  /** The loop's locals: `sectionCounter` and the `{chapterTitle, sections}`
      built so far. */
  datatype Scan = Scan(counter: nat, info: ChapterInfo)

  /** Where a walk over a node list ends: the list as edited, and either
      the locals or the error that stopped the walk. */
  datatype Pass = Pass(nodes: seq<Node>, outcome: Result<Scan, NumberingError>)

  const Start: Scan := Scan(1, ChapterInfo(None, []))

  function Prepend(n: Node, prefix: string): Node
    requires n.Heading?
  {
    Heading(n.level, [Text(prefix)] + n.children)
  }

  /** What one iteration does to the node at position `index`. */
  function Step(st: Scan, n: Node, chapter: nat, index: nat): Result<(Node, Scan), NumberingError> {
    if IsChapterHeading(n) then
      if n.children == [] then Err(FirstChildIsNull(index))
      else Ok((Prepend(n, ChapterPrefix(chapter)),
               Scan(1, ChapterInfo(Literal(n.children[0]), st.info.sections))))
    else if IsSectionHeading(n) then
      if n.children == [] then Err(FirstChildIsNull(index))
      else match Literal(n.children[0])
        case None => Err(LiteralIsNull(index))
        case Some(literal) =>
          if IsUnnumbered(literal) then Ok((n, st))
          else Ok((Prepend(n, SectionPrefix(chapter, st.counter)),
                   Scan(st.counter + 1, ChapterInfo(st.info.chapterTitle, st.info.sections + [literal]))))
    else Ok((n, st))
  }

  /** One more node after the walk `prev` over the nodes before it. */
  function Extend(prev: Pass, last: Node, chapter: nat, index: nat): Pass {
    match prev.outcome
    case Err(_) => Pass(prev.nodes + [last], prev.outcome)
    case Ok(st) =>
      match Step(st, last, chapter, index)
      case Err(e) => Pass(prev.nodes + [last], Err(e))
      case Ok((n, st')) => Pass(prev.nodes + [n], Ok(st'))
  }

  /** A step over a readable node: the heading edit and the new locals. */
  lemma StepReadable(st: Scan, n: Node, chapter: nat, index: nat)
    requires Readable(n)
    ensures Step(st, n, chapter, index) ==
      if IsChapterHeading(n) then
        Ok((Prepend(n, ChapterPrefix(chapter)), Scan(1, ChapterInfo(FirstLiteral(n), st.info.sections))))
      else if IsNumberedSection(n) then
        Ok((Prepend(n, SectionPrefix(chapter, st.counter)),
            Scan(st.counter + 1, ChapterInfo(st.info.chapterTitle, st.info.sections + [FirstLiteral(n).value]))))
      else Ok((n, st))
  {
  }

  /** The walk over `xs`, one node at a time from the front. Once a step
      throws, the nodes after it are left as they are. */
  function Run(xs: seq<Node>, chapter: nat): (p: Pass)
    ensures |p.nodes| == |xs|
  {
    if xs == [] then Pass([], Ok(Start))
    else Extend(Run(xs[..|xs| - 1], chapter), xs[|xs| - 1], chapter, |xs| - 1)
  }

  lemma RunPrefix(xs: seq<Node>, i: nat, chapter: nat)
    requires i < |xs|
    ensures Run(xs[..i + 1], chapter) == Extend(Run(xs[..i], chapter), xs[i], chapter, i)
  {
    assert xs[..i + 1][..i] == xs[..i];
  }

  function Outcome(p: Pass): Result<ChapterInfo, NumberingError> {
    match p.outcome
    case Ok(st) => Ok(st.info)
    case Err(e) => Err(e)
  }

  /** Once the walk over a prefix has thrown, the rest of the list is not
      touched. */
  lemma {:induction false} RunAfterFailure(xs: seq<Node>, k: nat, chapter: nat)
    requires k <= |xs| && Run(xs[..k], chapter).outcome.Err?
    ensures Run(xs, chapter) == Pass(Run(xs[..k], chapter).nodes + xs[k..], Run(xs[..k], chapter).outcome)
    decreases |xs|
  {
    if k < |xs| {
      var init := xs[..|xs| - 1];
      assert init[..k] == xs[..k];
      RunAfterFailure(init, k, chapter);
      assert init[k..] + [xs[|xs| - 1]] == xs[k..];
    } else {
      assert xs[..k] == xs;
    }
  }

  /** A step that throws ends the walk: the rest is left as it is. */
  lemma FailsAt(xs: seq<Node>, i: nat, chapter: nat, done: seq<Node>, st: Scan, e: NumberingError)
    requires i < |xs| && Run(xs[..i], chapter) == Pass(done, Ok(st))
    requires Step(st, xs[i], chapter, i) == Err(e)
    ensures Run(xs, chapter) == Pass(done + xs[i..], Err(e))
  {
    RunPrefix(xs, i, chapter);
    RunAfterFailure(xs, i + 1, chapter);
    assert [xs[i]] + xs[i + 1..] == xs[i..];
  }

  /** A step that succeeds extends the walk by one edited node. */
  lemma SucceedsAt(xs: seq<Node>, i: nat, chapter: nat, done: seq<Node>, st: Scan, n: Node, st': Scan)
    requires i < |xs| && Run(xs[..i], chapter) == Pass(done, Ok(st))
    requires Step(st, xs[i], chapter, i) == Ok((n, st'))
    ensures Run(xs[..i + 1], chapter) == Pass(done + [n], Ok(st'))
  {
    RunPrefix(xs, i, chapter);
  }

  /** A step that succeeds extends the walk by one edited node, the one the
      loop has just written at position `i`. */
  lemma Advance(xs: seq<Node>, i: nat, chapter: nat, done: seq<Node>, st: Scan, st': Scan, children: seq<Node>)
    requires i < |xs| && |done| == i && Run(xs[..i], chapter) == Pass(done, Ok(st))
    requires |children| == |xs| && children[..i] == done && children[i + 1..] == xs[i + 1..]
    requires Step(st, xs[i], chapter, i) == Ok((children[i], st'))
    ensures Run(xs[..i + 1], chapter) == Pass(children[..i + 1], Ok(st'))
    ensures children[i + 1..] == xs[i + 1..]
  {
    SucceedsAt(xs, i, chapter, done, st, children[i], st');
    assert children[..i + 1] == done + [children[i]];
  }

  /** The body of the loop of `numberHeadings` for the child at position
      `i`, given the loop's locals `scan`: it edits that child and gives the
      new locals as `Step` says, or throws and edits nothing. */
  method NumberChild(document: Document, i: nat, chapter: nat, scan: Scan)
    returns (next: Result<Scan, NumberingError>)
    requires i < |document.children|
    modifies document
    ensures match Step(scan, old(document.children[i]), chapter, i)
            case Ok((n, scan')) => next == Ok(scan') && document.children == old(document.children)[i := n]
            case Err(e) => next == Err(e) && document.children == old(document.children)
  {
    var child := document.children[i];
    next := Ok(scan);
    if child.Heading? {
      if child.level == 1 {
        if child.children == [] {
          return Err(FirstChildIsNull(i));
        }
        var chapterTitle := Literal(child.children[0]);
        document.children := document.children[i := Heading(1, [Text(ChapterPrefix(chapter))] + child.children)];
        next := Ok(Scan(1, ChapterInfo(chapterTitle, scan.info.sections)));
      } else if child.level == 2 {
        if child.children == [] {
          return Err(FirstChildIsNull(i));
        }
        var literal := Literal(child.children[0]);
        if literal.None? {
          return Err(LiteralIsNull(i));
        }
        if !IsUnnumbered(literal.value) {
          var sections := scan.info.sections + [literal.value];
          document.children := document.children[i := Heading(2, [Text(SectionPrefix(chapter, scan.counter))] + child.children)];
          next := Ok(Scan(scan.counter + 1, ChapterInfo(scan.info.chapterTitle, sections)));
        }
      }
    }
  }

  /** `numberHeadings(document, chapter)`: `scan` holds the locals
      `sectionCounter`, `chapterTitle` and `sections`. */
  method NumberHeadings(document: Document, chapter: nat) returns (r: Result<ChapterInfo, NumberingError>)
    modifies document
    ensures document.children == Run(old(document.children), chapter).nodes
    ensures r == Outcome(Run(old(document.children), chapter))
  {
    ghost var xs := document.children;
    var scan := Start;
    var i := 0;
    while i < |document.children|
      invariant 0 <= i <= |xs| == |document.children|
      invariant document.children[i..] == xs[i..]
      invariant Run(xs[..i], chapter) == Pass(document.children[..i], Ok(scan))
    {
      ghost var done := document.children[..i];
      Split(document.children, i);
      var next := NumberChild(document, i, chapter, scan);
      if next.Err? {
        FailsAt(xs, i, chapter, done, scan, next.error);
        return Err(next.error);
      }
      Advance(xs, i, chapter, done, scan, next.value, document.children);
      scan := next.value;
      i := i + 1;
    }
    assert xs[..i] == xs;
    r := Ok(scan.info);
  }

  // ------------------------------------------------ reference definitions

  /** How many numbered sections follow the last level-1 heading of `xs`
      (all of them when there is none). */
  function SinceChapter(xs: seq<Node>): nat {
    if xs == [] then 0
    else if IsChapterHeading(xs[|xs| - 1]) then 0
    else SinceChapter(xs[..|xs| - 1]) + (if IsNumberedSection(xs[|xs| - 1]) then 1 else 0)
  }

  /** How many numbered sections `xs` holds. */
  function CountNumbered(xs: seq<Node>): nat {
    if xs == [] then 0
    else CountNumbered(xs[..|xs| - 1]) + (if IsNumberedSection(xs[|xs| - 1]) then 1 else 0)
  }

  /** The first-child literal of the last level-1 heading, if any. */
  function LastTitle(xs: seq<Node>): Option<string> {
    if xs == [] then None
    else if IsChapterHeading(xs[|xs| - 1]) then FirstLiteral(xs[|xs| - 1])
    else LastTitle(xs[..|xs| - 1])
  }

  /** The untrimmed first-child literals of the numbered sections, in order. */
  function SectionTitles(xs: seq<Node>): seq<string> {
    if xs == [] then []
    else SectionTitles(xs[..|xs| - 1]) +
         (if IsNumberedSection(xs[|xs| - 1]) then [FirstLiteral(xs[|xs| - 1]).value] else [])
  }

  /** What position `i` of `xs` should look like after numbering. */
  function Numbered(xs: seq<Node>, i: nat, chapter: nat): Node
    requires i < |xs|
  {
    var n := xs[i];
    if IsChapterHeading(n) then Prepend(n, ChapterPrefix(chapter))
    else if IsNumberedSection(n) then Prepend(n, SectionPrefix(chapter, 1 + SinceChapter(xs[..i])))
    else n
  }

  // --------------------------------------------------------------- lemmas

  /** The walk succeeds exactly on well-formed lists; when it throws, the
      error names the first unreadable node and nothing from there on has
      been touched. */
  lemma {:induction false} RunFailsOnFirstUnreadable(xs: seq<Node>, chapter: nat)
    ensures Run(xs, chapter).outcome.Ok? <==> WellFormed(xs)
    ensures Run(xs, chapter).outcome.Err? ==>
              var k := Run(xs, chapter).outcome.error.index;
              k < |xs| && WellFormed(xs[..k]) && !Readable(xs[k]) &&
              Run(xs, chapter).nodes[k..] == xs[k..]
  {
    if xs != [] {
      var init := xs[..|xs| - 1];
      RunFailsOnFirstUnreadable(init, chapter);
      var prev := Run(init, chapter);
      if prev.outcome.Err? {
        var k := prev.outcome.error.index;
        assert xs[..k] == init[..k] && xs[k] == init[k];
        assert xs[k..] == init[k..] + [xs[|xs| - 1]];
        assert Run(xs, chapter).nodes == prev.nodes + [xs[|xs| - 1]];
        assert (prev.nodes + [xs[|xs| - 1]])[k..] == prev.nodes[k..] + [xs[|xs| - 1]];
      } else {
        assert WellFormed(xs) <==> Readable(xs[|xs| - 1]);
        assert xs[..|xs| - 1] == init;
      }
    }
  }

  lemma WellFormedInit(xs: seq<Node>)
    requires xs != [] && WellFormed(xs)
    ensures WellFormed(xs[..|xs| - 1]) && Readable(xs[|xs| - 1])
  {
    var init := xs[..|xs| - 1];
    forall i | 0 <= i < |init| ensures Readable(init[i]) {
      assert init[i] == xs[i];
    }
  }

  /** On a well-formed list the walk ends with the counter one past the
      numbered sections since the last level-1 heading, that heading's
      title, and the numbered sections' titles in order. */
  lemma {:induction false} RunState(xs: seq<Node>, chapter: nat)
    requires WellFormed(xs)
    ensures Run(xs, chapter).outcome ==
              Ok(Scan(1 + SinceChapter(xs), ChapterInfo(LastTitle(xs), SectionTitles(xs))))
  {
    if xs != [] {
      var init := xs[..|xs| - 1];
      var last := xs[|xs| - 1];
      WellFormedInit(xs);
      RunState(init, chapter);
      var st := Scan(1 + SinceChapter(init), ChapterInfo(LastTitle(init), SectionTitles(init)));
      StepReadable(st, last, chapter, |xs| - 1);
      if IsChapterHeading(last) {
        assert SectionTitles(xs) == SectionTitles(init) + [] == SectionTitles(init);
      } else if IsNumberedSection(last) {
        assert SinceChapter(xs) == SinceChapter(init) + 1;
      } else {
        assert SectionTitles(xs) == SectionTitles(init) + [] == SectionTitles(init);
      }
    }
  }

  /** On a well-formed list the walk gives every level-1 heading the chapter
      prefix and every numbered section the prefix `chapter.k`, where k - 1
      numbered sections precede it since the last level-1 heading, and
      leaves every other node as it was. */
  lemma {:induction false} RunNumbersHeadings(xs: seq<Node>, chapter: nat)
    requires WellFormed(xs)
    ensures forall i :: 0 <= i < |xs| ==> Run(xs, chapter).nodes[i] == Numbered(xs, i, chapter)
  {
    if xs != [] {
      var init := xs[..|xs| - 1];
      var last := xs[|xs| - 1];
      WellFormedInit(xs);
      RunNumbersHeadings(init, chapter);
      RunState(init, chapter);
      forall i | 0 <= i < |init|
        ensures Numbered(xs, i, chapter) == Numbered(init, i, chapter)
      {
        assert xs[..i] == init[..i];
      }
      var st := Scan(1 + SinceChapter(init), ChapterInfo(LastTitle(init), SectionTitles(init)));
      StepReadable(st, last, chapter, |xs| - 1);
    }
  }

  /** The section counter is the number of numbered sections since the
      chapter heading at `a - 1` (or since the start, when `a` is 0). */
  lemma {:induction false} SinceChapterCounts(xs: seq<Node>, a: nat, i: nat)
    requires a <= i <= |xs|
    requires a == 0 || IsChapterHeading(xs[a - 1])
    requires forall k :: a <= k < i ==> !IsChapterHeading(xs[k])
    ensures SinceChapter(xs[..i]) == CountNumbered(xs[a..i])
  {
    if i == a {
      if a > 0 {
        assert xs[..a][a - 1] == xs[a - 1];
      }
      assert xs[a..i] == [];
    } else {
      SinceChapterCounts(xs, a, i - 1);
      assert xs[..i][..i - 1] == xs[..i - 1];
      assert xs[a..i][..i - 1 - a] == xs[a..i - 1];
    }
  }

  /** Nodes that are neither a level-1 heading nor a numbered section come
      out identical; the others keep their level and children and gain one
      text run in front. */
  lemma {:induction false} OnlyHeadingsChange(xs: seq<Node>, chapter: nat)
    ensures forall i :: 0 <= i < |xs| ==>
              var n := Run(xs, chapter).nodes[i];
              n == xs[i] ||
              ((IsChapterHeading(xs[i]) || IsNumberedSection(xs[i])) &&
               n.Heading? && n.level == xs[i].level && |n.children| == |xs[i].children| + 1 &&
               n.children[0].Text? && n.children[1..] == xs[i].children)
  {
    if xs != [] {
      var init := xs[..|xs| - 1];
      OnlyHeadingsChange(init, chapter);
      assert forall i :: 0 <= i < |init| ==> xs[i] == init[i];
    }
  }

  /** Chapter 3 with the single heading "はじめに". */
  lemma NumberingExample()
    ensures Run([Heading(1, [Text("はじめに")])], 3) ==
            Pass([Heading(1, [Text("第3章 "), Text("はじめに")])],
                 Ok(Scan(1, ChapterInfo(Some("はじめに"), []))))
  {
    var xs := [Heading(1, [Text("はじめに")])];
    assert xs[..0] == [];
    assert Decimal(3) == "3";
    assert ChapterPrefix(3) == "第3章 ";
    assert Run(xs[..0], 3) == Pass([], Ok(Start));
    assert IsChapterHeading(xs[0]) && xs[0].children != [];
    assert Literal(xs[0].children[0]) == Some("はじめに");
    assert Prepend(xs[0], ChapterPrefix(3)) == Heading(1, [Text("第3章 "), Text("はじめに")]);
    assert Step(Start, xs[0], 3, 0) == Ok((Heading(1, [Text("第3章 "), Text("はじめに")]), Scan(1, ChapterInfo(Some("はじめに"), []))));
  }

  /** A section heading that starts with inline code, as in
      ``## `Functor` 型クラス``: the code's literal is read, numbered and
      listed like text. */
  lemma CodeHeadingExample()
    ensures Run([Heading(2, [Code("Functor"), Text(" 型クラス")])], 1) ==
            Pass([Heading(2, [Text("1.1 "), Code("Functor"), Text(" 型クラス")])],
                 Ok(Scan(2, ChapterInfo(None, ["Functor"]))))
  {
    var xs := [Heading(2, [Code("Functor"), Text(" 型クラス")])];
    assert xs[..0] == [];
    assert Decimal(1) == "1";
    assert SectionPrefix(1, 1) == "1.1 ";
    assert Run(xs[..0], 1) == Pass([], Ok(Start));
    assert IsSectionHeading(xs[0]) && xs[0].children != [];
    assert Literal(xs[0].children[0]) == Some("Functor");
    FunctorIsNumbered();
    var numbered := Heading(2, [Text("1.1 "), Code("Functor"), Text(" 型クラス")]);
    assert Prepend(xs[0], SectionPrefix(1, 1)) == numbered;
    assert Start.info.sections + ["Functor"] == ["Functor"];
    assert Step(Start, xs[0], 1, 0) == Ok((numbered, Scan(2, ChapterInfo(None, ["Functor"]))));
  }

  lemma FunctorIsNumbered()
    ensures !IsUnnumbered("Functor")
  {
    var f := "Functor";
    assert !IsWhitespace(f[0]) && !IsWhitespace(f[|f| - 1]);
    assert TrimStart(f) == f;
    assert Trim(f) == f;
    forall i | 0 <= i <= |f| - |ExerciseMarker| ensures !OccursAt(f, ExerciseMarker, i) {
      assert f[i..i + |ExerciseMarker|][0] == f[i] != ExerciseMarker[0];
    }
    assert !Contains(f, ExerciseMarker);
  }
}
