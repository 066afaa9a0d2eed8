/** The rendered view: the elements directly under `<body>`, and the edits
    made on it with cheerio (`transformExercise`, `insertPageBreak`,
    `concatHtmls`). */
module Html {
  import opened Strings
  import opened Seqs
  import Numbering

  /** An HTML element: tag name, `class` attribute, the text that comes
      before its first child element, and its child elements. Text between
      or after child elements is not represented. */
  datatype Element = Element(tag: string, cls: string, text: string, children: seq<Element>)

  /** cheerio's `.text()` over a list of elements in document order: each
      element's leading text, then that of its children. */
  function TextOf(es: seq<Element>): string
    decreases es
  {
    if es == [] then "" else es[0].text + TextOf(es[0].children) + TextOf(es[1..])
  }

  /** The selector `h1, h2, h3, h4, h5, h6`: an `h` and one digit from 1
      to 6. */
  predicate IsHeadingTag(e: Element) {
    |e.tag| == 2 && e.tag[0] == 'h' && '1' <= e.tag[1] <= '6'
  }

  /** An `h2` whose trimmed text is exactly the exercise marker. */
  predicate IsExerciseHeading(e: Element) {
    e.tag == "h2" && Trim(TextOf([e])) == Numbering.ExerciseMarker
  }

  /** The fresh `<h2>演習</h2>` at the head of every exercise block. */
  const ExerciseLabel: Element := Element("h2", "", Numbering.ExerciseMarker, [])

  /** `<div class="exercise"><h2>演習</h2>…</div>` holding `moved`. */
  function ExerciseDiv(moved: seq<Element>): Element {
    Element("div", "exercise", "", [ExerciseLabel] + moved)
  }

  predicate IsExerciseDiv(e: Element) {
    e.tag == "div" && e.cls == "exercise" && |e.children| >= 1
  }

  /** `<div class="pagebreak"></div>` */
  const PageBreak: Element := Element("div", "pagebreak", "", [])

  /** A loaded HTML document: the children of its `<body>`. */
  class View {
    var body: seq<Element>

    constructor (body: seq<Element>)
      ensures this.body == body
    {
      this.body := body;
    }
  }

  // ------------------------------------------------------------ exercises

  /** How many elements precede the first heading of `xs` (all of them when
      there is none). */
  function LeadingRun(xs: seq<Element>): (k: nat)
    ensures k <= |xs|
  {
    if xs == [] || IsHeadingTag(xs[0]) then 0 else 1 + LeadingRun(xs[1..])
  }

  /** The run holds no heading, and it ends at a heading or at the end. */
  lemma {:induction false} LeadingRunStops(xs: seq<Element>)
    ensures var k := LeadingRun(xs);
            (forall j :: 0 <= j < k ==> !IsHeadingTag(xs[j])) &&
            (k < |xs| ==> IsHeadingTag(xs[k]))
  {
    if xs != [] && !IsHeadingTag(xs[0]) {
      LeadingRunStops(xs[1..]);
      var k := LeadingRun(xs);
      forall j | 1 <= j < k ensures !IsHeadingTag(xs[j]) {
        assert xs[j] == xs[1..][j - 1];
      }
    }
  }

  /** The body after `transformExercise`: every exercise heading, together
      with the non-heading elements up to the next heading, becomes one
      exercise block; everything else stays where it is. */
  function Exercised(xs: seq<Element>): seq<Element>
    decreases |xs|
  {
    if xs == [] then []
    else if IsExerciseHeading(xs[0]) then
      var tail := xs[1..];
      var k := LeadingRun(tail);
      [ExerciseDiv(tail[..k])] + Exercised(tail[k..])
    else [xs[0]] + Exercised(xs[1..])
  }

  /** The position of the first heading is determined by these facts. */
  lemma {:induction false} LeadingRunIs(xs: seq<Element>, k: nat)
    requires k <= |xs|
    requires forall j :: 0 <= j < k ==> !IsHeadingTag(xs[j])
    requires k < |xs| ==> IsHeadingTag(xs[k])
    ensures LeadingRun(xs) == k
  {
    if k > 0 {
      var tail := xs[1..];
      forall j | 0 <= j < k - 1 ensures !IsHeadingTag(tail[j]) {
        assert tail[j] == xs[j + 1];
      }
      LeadingRunIs(tail, k - 1);
    }
  }

  /** The run after position `i` ends `m` elements on, at the next heading
      or at the end. */
  lemma RunAfter(b: seq<Element>, i: nat, m: nat)
    requires i + 1 + m <= |b|
    requires forall k :: i + 1 <= k < i + 1 + m ==> !IsHeadingTag(b[k])
    requires i + 1 + m < |b| ==> IsHeadingTag(b[i + 1 + m])
    ensures LeadingRun(b[i + 1..]) == m
  {
    var tail := b[i + 1..];
    forall j | 0 <= j < m ensures !IsHeadingTag(tail[j]) {
      assert tail[j] == b[i + 1 + j];
    }
    assert m < |tail| ==> tail[m] == b[i + 1 + m];
    LeadingRunIs(tail, m);
  }

  /** The slices of `b[i..]` that `Exercised` takes apart, in terms of `b`. */
  lemma ExercisedAtSlice(b: seq<Element>, i: nat)
    requires i < |b| && IsExerciseHeading(b[i])
    ensures var m := LeadingRun(b[i + 1..]);
            i + 1 + m <= |b| &&
            Exercised(b[i..]) == [ExerciseDiv(b[i + 1..i + 1 + m])] + Exercised(b[i + 1 + m..])
  {
    var xs := b[i..];
    var tail := b[i + 1..];
    assert xs[0] == b[i];
    assert xs[1..] == tail;
    var m := LeadingRun(tail);
    assert tail[..m] == b[i + 1..i + 1 + m];
    assert tail[m..] == b[i + 1 + m..];
  }

  /** Wrapping the exercise heading at `i` into its block is one step of
      `Exercised`, and it does not make the body longer. */
  lemma WrapStep(b: seq<Element>, i: nat, nb: seq<Element>)
    requires i < |b| && IsExerciseHeading(b[i])
    requires var m := LeadingRun(b[i + 1..]);
             nb == b[..i] + [ExerciseDiv(b[i + 1..i + 1 + m])] + b[i + 1 + m..]
    ensures i < |nb| <= |b|
    ensures nb[..i + 1] + Exercised(nb[i + 1..]) == b[..i] + Exercised(b[i..])
  {
    ExercisedAtSlice(b, i);
    var m := LeadingRun(b[i + 1..]);
    var block := ExerciseDiv(b[i + 1..i + 1 + m]);
    var rest := b[i + 1 + m..];
    SplitAfter(b[..i], block, rest);
    Assoc(b[..i], [block], Exercised(rest));
  }

  /** Passing over an element that is not an exercise heading is one step
      of `Exercised`. */
  lemma KeptStep(b: seq<Element>, i: nat)
    requires i < |b| && !IsExerciseHeading(b[i])
    ensures b[..i + 1] + Exercised(b[i + 1..]) == b[..i] + Exercised(b[i..])
  {
    assert b[i..][0] == b[i] && b[i..][1..] == b[i + 1..];
    assert b[..i + 1] == b[..i] + [b[i]];
  }

  /** The scan of `transformExercise` after the exercise heading at `i`:
      each following sibling up to the next heading (or the end) is
      appended to the new block's children, which takes it out of the
      body. */
  method MoveRun(view: View, i: nat) returns (div: seq<Element>)
    requires i < |view.body|
    modifies view
    ensures var b := old(view.body);
            var m := LeadingRun(b[i + 1..]);
            div == [ExerciseLabel] + b[i + 1..i + 1 + m] && view.body == b[..i + 1] + b[i + 1 + m..]
  {
    ghost var b := view.body;
    ghost var m := 0;
    div := [ExerciseLabel];
    while i + 1 < |view.body| && !IsHeadingTag(view.body[i + 1])
      invariant i + 1 + m <= |b|
      invariant div == [ExerciseLabel] + b[i + 1..i + 1 + m]
      invariant view.body == b[..i + 1] + b[i + 1 + m..]
      invariant forall k :: i + 1 <= k < i + 1 + m ==> !IsHeadingTag(b[k])
      decreases |view.body|
    {
      MoveOne(b, i, m, view.body);
      Assoc([ExerciseLabel], b[i + 1..i + 1 + m], [b[i + 1 + m]]);
      div := div + [view.body[i + 1]];
      view.body := view.body[..i + 1] + view.body[i + 2..];
      m := m + 1;
    }
    RunAfter(b, i, m);
  }

  /** Taking the element after position `i` out of a body from which the
      `m` elements after `i` have already been taken. */
  lemma MoveOne(b: seq<Element>, i: nat, m: nat, body: seq<Element>)
    requires i + 1 + m <= |b| && body == b[..i + 1] + b[i + 1 + m..] && i + 1 < |body|
    ensures body[i + 1] == b[i + 1 + m]
    ensures body[..i + 1] + body[i + 2..] == b[..i + 1] + b[i + 2 + m..]
    ensures b[i + 1..i + 2 + m] == b[i + 1..i + 1 + m] + [b[i + 1 + m]]
  {
    assert body[..i + 1] == b[..i + 1];
    assert body[i + 2..] == b[i + 2 + m..];
  }

  /** The `.each` callback of `transformExercise` for the exercise heading
      at `i`: the run after it moves into a new exercise block, which then
      replaces the heading. */
  method WrapExercise(view: View, i: nat)
    requires i < |view.body|
    modifies view
    ensures var b := old(view.body);
            var m := LeadingRun(b[i + 1..]);
            view.body == b[..i] + [ExerciseDiv(b[i + 1..i + 1 + m])] + b[i + 1 + m..]
  {
    ghost var b := view.body;
    var div := MoveRun(view, i);
    ghost var m := LeadingRun(b[i + 1..]);
    assert b[..i + 1] == b[..i] + [b[i]];
    ReplaceAt(b[..i], b[i], b[i + 1 + m..], ExerciseDiv(b[i + 1..i + 1 + m]));
    view.body := view.body[i := Element("div", "exercise", "", div)];
  }

  /** The `.each` callback of `transformExercise` for the element at `i`:
      an exercise heading is wrapped, anything else is passed over. */
  method VisitElement(view: View, i: nat)
    requires i < |view.body|
    modifies view
    ensures IsExerciseHeading(old(view.body[i])) ==>
              var b := old(view.body);
              var m := LeadingRun(b[i + 1..]);
              view.body == b[..i] + [ExerciseDiv(b[i + 1..i + 1 + m])] + b[i + 1 + m..]
    ensures !IsExerciseHeading(old(view.body[i])) ==> view.body == old(view.body)
    ensures i < |view.body| <= |old(view.body)|
    ensures view.body[..i + 1] + Exercised(view.body[i + 1..]) ==
            old(view.body[..i]) + Exercised(old(view.body[i..]))
  {
    ghost var b := view.body;
    if IsExerciseHeading(view.body[i]) {
      WrapExercise(view, i);
      WrapStep(b, i, view.body);
    } else {
      KeptStep(b, i);
    }
  }

  /** `transformExercise($)`: every exercise heading of the body, in
      document order. */
  method TransformExercise(view: View)
    modifies view
    ensures view.body == Exercised(old(view.body))
  {
    var i := 0;
    while i < |view.body|
      invariant 0 <= i <= |view.body|
      invariant view.body[..i] + Exercised(view.body[i..]) == Exercised(old(view.body))
      decreases |view.body| - i
    {
      VisitElement(view, i);
      i := i + 1;
    }
    assert view.body[i..] == [];
  }

  /** No exercise heading is left among the body's elements. */
  lemma {:induction false} ExercisedLeavesNoExerciseHeading(xs: seq<Element>)
    ensures forall k :: 0 <= k < |Exercised(xs)| ==> !IsExerciseHeading(Exercised(xs)[k])
    decreases |xs|
  {
    if xs != [] {
      if IsExerciseHeading(xs[0]) {
        var tail := xs[1..];
        ExercisedLeavesNoExerciseHeading(tail[LeadingRun(tail)..]);
      } else {
        ExercisedLeavesNoExerciseHeading(xs[1..]);
      }
    }
  }

  /** A body without exercise headings is left as it is. */
  lemma {:induction false} ExercisedWithoutExerciseHeadings(xs: seq<Element>)
    requires forall k :: 0 <= k < |xs| ==> !IsExerciseHeading(xs[k])
    ensures Exercised(xs) == xs
  {
    if xs != [] {
      ExercisedWithoutExerciseHeadings(xs[1..]);
    }
  }

  /** Every block the transformation makes starts with an `h2` that is
      itself an exercise heading. `$('h2')` selects nested headings too, so
      a second pass would wrap that label again: the transformation is not
      idempotent. */
  lemma LabelIsExerciseHeading(moved: seq<Element>)
    ensures var div := ExerciseDiv(moved);
            IsExerciseDiv(div) && div.children[0] == ExerciseLabel && IsExerciseHeading(div.children[0])
  {
    assert TextOf([ExerciseLabel]) == Numbering.ExerciseMarker;
    TrimStrips(Numbering.ExerciseMarker);
    assert forall k :: 0 <= k < |Numbering.ExerciseMarker| ==> !IsWhitespace(Numbering.ExerciseMarker[k]);
  }

  /** A body's elements with the exercise headings dropped. */
  function WithoutExerciseHeadings(xs: seq<Element>): seq<Element> {
    if xs == [] then []
    else (if IsExerciseHeading(xs[0]) then [] else [xs[0]]) + WithoutExerciseHeadings(xs[1..])
  }

  /** A body's elements with every exercise block opened up: its elements
      after the label heading take its place. */
  function Unwrapped(xs: seq<Element>): seq<Element> {
    if xs == [] then []
    else (if IsExerciseDiv(xs[0]) then xs[0].children[1..] else [xs[0]]) + Unwrapped(xs[1..])
  }

  lemma {:induction false} WithoutExerciseHeadingsAppend(a: seq<Element>, b: seq<Element>)
    ensures WithoutExerciseHeadings(a + b) == WithoutExerciseHeadings(a) + WithoutExerciseHeadings(b)
  {
    if a != [] {
      assert (a + b)[0] == a[0];
      assert (a + b)[1..] == a[1..] + b;
      WithoutExerciseHeadingsAppend(a[1..], b);
    } else {
      assert a + b == b;
    }
  }

  lemma {:induction false} WithoutExerciseHeadingsNoHeadings(xs: seq<Element>)
    requires forall k :: 0 <= k < |xs| ==> !IsHeadingTag(xs[k])
    ensures WithoutExerciseHeadings(xs) == xs
  {
    if xs != [] {
      WithoutExerciseHeadingsNoHeadings(xs[1..]);
    }
  }

  /** The exercise-heading case of `ExercisedKeepsElements`: the block
      opens up to the run it took, and the run holds no headings. */
  lemma KeepsElementsAtHeading(xs: seq<Element>, run: seq<Element>, rest: seq<Element>)
    requires xs != [] && IsExerciseHeading(xs[0]) && xs[1..] == run + rest
    requires forall k :: 0 <= k < |run| ==> !IsHeadingTag(run[k])
    requires Exercised(xs) == [ExerciseDiv(run)] + Exercised(rest)
    requires Unwrapped(Exercised(rest)) == WithoutExerciseHeadings(rest)
    ensures Unwrapped(Exercised(xs)) == WithoutExerciseHeadings(xs)
  {
    var ys := [ExerciseDiv(run)] + Exercised(rest);
    assert ys[1..] == Exercised(rest);
    assert Unwrapped(ys) == run + Unwrapped(Exercised(rest));
    WithoutExerciseHeadingsAppend(run, rest);
    WithoutExerciseHeadingsNoHeadings(run);
  }

  /** No element is lost, duplicated or reordered: opening up the exercise
      blocks again gives the original body without its exercise headings
      (for a body that had no exercise blocks of its own). */
  lemma {:induction false} ExercisedKeepsElements(xs: seq<Element>)
    requires forall k :: 0 <= k < |xs| ==> !IsExerciseDiv(xs[k])
    ensures Unwrapped(Exercised(xs)) == WithoutExerciseHeadings(xs)
    decreases |xs|
  {
    if xs != [] {
      if IsExerciseHeading(xs[0]) {
        var tail := xs[1..];
        var k := LeadingRun(tail);
        LeadingRunStops(tail);
        assert tail == tail[..k] + tail[k..];
        ExercisedKeepsElements(tail[k..]);
        KeepsElementsAtHeading(xs, tail[..k], tail[k..]);
      } else {
        ExercisedKeepsElements(xs[1..]);
        var ys := [xs[0]] + Exercised(xs[1..]);
        assert ys[1..] == Exercised(xs[1..]);
      }
    }
  }

  /** An exercise heading, three (or any number of) non-heading elements,
      then a heading: the block holds exactly those elements, and the
      heading and what follows it stay outside, in order. */
  lemma ExerciseStopsAtHeading(h: Element, run: seq<Element>, stop: Element, rest: seq<Element>)
    requires IsExerciseHeading(h) && IsHeadingTag(stop)
    requires forall k :: 0 <= k < |run| ==> !IsHeadingTag(run[k])
    ensures Exercised([h] + run + [stop] + rest) == [ExerciseDiv(run)] + Exercised([stop] + rest)
  {
    var tail := run + [stop] + rest;
    assert [h] + run + [stop] + rest == [h] + tail;
    LeadingRunIs(tail, |run|);
    ExercisedCons(h, tail);
    assert tail[..|run|] == run;
    assert tail[|run|..] == [stop] + rest;
  }

  /** `Exercised` on a body that starts with an exercise heading. */
  lemma ExercisedCons(h: Element, tail: seq<Element>)
    requires IsExerciseHeading(h)
    ensures var k := LeadingRun(tail);
            Exercised([h] + tail) == [ExerciseDiv(tail[..k])] + Exercised(tail[k..])
  {
    assert ([h] + tail)[1..] == tail;
  }

  // ------------------------------------------------ page break and concat

  /** `insertPageBreak($)`: one page-break block after everything else. */
  method InsertPageBreak(view: View)
    modifies view
    ensures view.body == old(view.body) + [PageBreak]
  {
    view.body := view.body + [PageBreak];
  }

  /** A JavaScript array of loaded documents. */
  class ViewList {
    var items: seq<View>

    constructor (items: seq<View>)
      ensures this.items == items
    {
      this.items := items;
    }

    /** `array.shift()`: removes and returns the first element, or
        `undefined` on an empty array. */
    method Shift() returns (first: View?)
      modifies this
      ensures old(items) == [] ==> first == null && items == []
      ensures old(items) != [] ==> first == old(items[0]) && items == old(items[1..])
    {
      if items == [] {
        first := null;
      } else {
        first := items[0];
        items := items[1..];
      }
    }
  }

  /** The body elements of `vs`, one document after the other. */
  function Bodies(vs: seq<View>): seq<Element>
    reads vs
  {
    if vs == [] then [] else Bodies(vs[..|vs| - 1]) + vs[|vs| - 1].body
  }

  lemma {:induction false} BodiesCons(v: View, vs: seq<View>)
    ensures Bodies([v] + vs) == v.body + Bodies(vs)
    decreases |vs|
  {
    if vs != [] {
      var init := vs[..|vs| - 1];
      assert ([v] + vs)[..|vs|] == [v] + init;
      BodiesCons(v, init);
    } else {
      assert ([v] + vs)[..0] == [];
    }
  }

  /** Concatenating in two stages gives the same body as concatenating
      all at once. */
  lemma {:induction false} BodiesAppend(vs: seq<View>, ws: seq<View>)
    ensures Bodies(vs + ws) == Bodies(vs) + Bodies(ws)
    decreases |ws|
  {
    if ws == [] {
      assert vs + ws == vs;
    } else {
      var init := ws[..|ws| - 1];
      BodiesAppend(vs, init);
      assert (vs + ws)[..|vs + ws| - 1] == vs + init;
      Assoc(Bodies(vs), Bodies(init), ws[|ws| - 1].body);
    }
  }

  /** A single document concatenates to its own body. */
  lemma BodiesSingle(v: View)
    ensures Bodies([v]) == v.body
  {
    assert [v][..0] == [];
  }

  /** The loop of `concatHtmls`: the body elements of each view of `rest`,
      in order, are appended to `head`'s body. */
  method AppendBodies(head: View, rest: seq<View>)
    requires head !in rest
    modifies head
    ensures head.body == old(head.body) + Bodies(rest)
  {
    for i := 0 to |rest|
      invariant head.body == old(head.body) + Bodies(rest[..i])
    {
      var v := rest[i];
      assert rest[..i + 1][..i] == rest[..i];
      head.body := head.body + v.body;
    }
    assert rest[..|rest|] == rest;
  }

  /** `concatHtmls(htmls)`: takes the first document out of the array and
      appends to its body the body elements of every later one, in order;
      `undefined` for an empty array. */
  method ConcatHtmls(htmls: ViewList) returns (head: View?)
    requires forall i, j :: 0 <= i < j < |htmls.items| ==> htmls.items[i] != htmls.items[j]
    modifies htmls, if htmls.items == [] then {} else {htmls.items[0]}
    ensures old(htmls.items) == [] ==> head == null && htmls.items == []
    ensures old(htmls.items) != [] ==>
              head == old(htmls.items[0]) && htmls.items == old(htmls.items[1..]) &&
              head.body == old(Bodies(htmls.items))
  {
    if htmls.items != [] {
      BodiesCons(htmls.items[0], htmls.items[1..]);
      assert htmls.items == [htmls.items[0]] + htmls.items[1..];
    }
    head := htmls.Shift();
    if head != null {
      assert head !in htmls.items;
      AppendBodies(head, htmls.items);
    }
  }
}
