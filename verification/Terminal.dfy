/** What rendered text looks like on a terminal: the numbers that are in effect at every character. */
module Terminal {
  import opened Sequences
  import opened Transform

  /** The numbers selected since everything was last reset. */
  type Rendition = seq<string>

  datatype Cell = Cell(character: char, rendition: Rendition)

  datatype Screen = Screen(cells: seq<Cell>, rendition: Rendition)

  ghost function Cells(s: string, r: Rendition): (cells: seq<Cell>)
    ensures |cells| == |s| && forall i :: 0 <= i < |s| ==> cells[i] == Cell(s[i], r)
  {
    seq(|s|, i requires 0 <= i < |s| => Cell(s[i], r))
  }

  /** Each number of a sequence adds to the rendition, except that 0 resets it. */
  ghost function Select(r: Rendition, numbers: seq<string>): (r': Rendition)
    decreases |numbers|
  {
    if numbers == [] then r else Select(if numbers[0] == "0" then [] else r + [numbers[0]], numbers[1..])
  }

  /** A terminal: text is shown in the rendition in effect, sequences change it. */
  ghost function Show(ts: seq<Token>, r: Rendition): (screen: Screen)
    decreases |ts|
  {
    if ts == [] then Screen([], r)
    else
      match ts[0]
      case Plain(s) =>
        var rest := Show(ts[1..], r);
        Screen(Cells(s, r) + rest.cells, rest.rendition)
      case Sequence(numbers) => Show(ts[1..], Select(r, numbers))
  }

  /** What a document should look like: what is styled has the colour, on top of what was in effect unless the colour
      resets that, and behind it everything is reset. */
  ghost function Look(d: Doc, r: Rendition): (screen: Screen) {
    match d
    case Text(s) => Screen(Cells(s, r), r)
    case Styled(color, doc) => Screen(Look(doc, Chosen(r, color)).cells, [])
    case Concat(left, right) =>
      var first := Look(left, r);
      var second := Look(right, first.rendition);
      Screen(first.cells + second.cells, second.rendition)
  }

  /** Plain foreground colours replace what was in effect, everything else comes on top of it. */
  ghost function Chosen(r: Rendition, color: Color): (r': Rendition) {
    if FamilyOf(color) == Foreground then Numbers(color)[1..] else r + Numbers(color)
  }

  lemma {:induction false} SelectOne(r: Rendition, number: string)
    requires number != "0"
    ensures Select(r, [number]) == r + [number]
  {
    assert [number][1..] == [];
  }

  lemma {:induction false} SelectColor(r: Rendition, color: Color)
    ensures Select(r, Numbers(color)) == Chosen(r, color)
  {
    hide FamilyOf, Hue, Digit;
    var numbers := Numbers(color);
    if |numbers| == 1 {
      SelectOne(r, numbers[0]);
    } else {
      var first := if numbers[0] == "0" then [] else r + [numbers[0]];
      assert numbers[1..] == [numbers[1]];
      SelectOne(first, numbers[1]);
      assert r + [numbers[0]] + [numbers[1]] == r + numbers;
    }
  }

  lemma {:induction false} SelectReset(r: Rendition)
    ensures Select(r, ["0", "0"]) == []
  {
    assert ["0", "0"][1..] == ["0"] && ["0"][1..] == [];
    assert Select([], ["0"]) == [];
  }

  lemma {:induction false} ShowAppend(a: seq<Token>, b: seq<Token>, r: Rendition)
    ensures var first := Show(a, r);
            var second := Show(b, first.rendition);
            Show(a + b, r) == Screen(first.cells + second.cells, second.rendition)
    decreases |a|
  {
    if a == [] {
      assert a + b == b;
      assert Show(a, r).cells + Show(b, r).cells == Show(b, r).cells;
    } else {
      assert (a + b)[0] == a[0] && (a + b)[1..] == a[1..] + b;
      if a[0].Plain? {
        ShowAppend(a[1..], b, r);
        Assoc(Cells(a[0].s, r), Show(a[1..], r).cells, Show(b, Show(a[1..], r).rendition).cells);
      } else {
        ShowAppend(a[1..], b, Select(r, a[0].numbers));
      }
    }
  }

  lemma {:induction false} ShowOne(t: Token, r: Rendition)
    ensures Show([t], r) == if t.Plain? then Screen(Cells(t.s, r), r) else Screen([], Select(r, t.numbers))
  {
    assert [t][1..] == [];
    assert t.Plain? ==> Cells(t.s, r) + [] == Cells(t.s, r);
  }

  lemma {:induction false} ShowStyled(numbers: seq<string>, ts: seq<Token>, r: Rendition)
    ensures Show([Sequence(numbers)] + ts + [Sequence(["0", "0"])], r) == Screen(Show(ts, Select(r, numbers)).cells, [])
  {
    hide Show, Select;
    var start, reset := Sequence(numbers), Sequence(["0", "0"]);
    var inner := Show(ts, Select(r, numbers));
    ShowOne(start, r);
    ShowOne(reset, inner.rendition);
    SelectReset(inner.rendition);
    ShowAppend([start], ts, r);
    ShowAppend([start] + ts, [reset], r);
    assert [] + inner.cells + [] == inner.cells;
  }

  /** Rendered text, shown on a terminal, looks as the document should: every character in its colour, none in the
      colour of what came before it. */
  lemma {:induction false} RenderLooks(d: Doc, r: Rendition)
    ensures Render(d, true) == TokensText(Tokens(d)) && Show(Tokens(d), r) == Look(d, r)
  {
    hide TokensText, Numbers, Show, Select, Chosen;
    RenderIsTokens(d);
    match d
    case Text(s) => ShowOne(Plain(s), r);
    case Styled(color, doc) =>
      SelectColor(r, color);
      RenderLooks(doc, Chosen(r, color));
      ShowStyled(Numbers(color), Tokens(doc), r);
    case Concat(left, right) =>
      RenderLooks(left, r);
      RenderLooks(right, Look(left, r).rendition);
      ShowAppend(Tokens(left), Tokens(right), r);
  }
}
