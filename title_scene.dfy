/**
 * The colour pickers of the pong title screen: each player has a column of
 * five colour buttons, one per entry of the colour list; a click selects the
 * clicked button of a column and deselects the others, and starting a game
 * keeps the selected button of each column and looks up its colour's index.
 * Screen coordinates are exact reals.
 */
module TitleScene {
  import opened Wrappers
  import opened Sequences

  datatype Vec2 = Vec2(x: real, y: real)

  /** An RGB colour, components in [0, 1]. */
  datatype Color = Rgb(r: real, g: real, b: real)

  const WindowWidth: real := 640.0
  const ButtonSize: real := 64.0
  const Offset: real := 8.0
  const FirstY: real := 48.0

  /** COLOR_LIST: blue, red, green, orange, grey. */
  const ColorList: seq<Color> :=
    [Rgb(0.5, 0.5, 1.0), Rgb(0.9, 0.0, 0.0), Rgb(0.0, 0.75, 0.0), Rgb(1.0, 0.6, 0.0), Rgb(0.5, 0.5, 0.5)]

  /** `Button::clicked`: the mouse lies in the button's rectangle, edges included. */
  predicate Clicked(position: Vec2, width: real, height: real, mouse: Vec2) {
    position.x <= mouse.x <= position.x + width && position.y <= mouse.y <= position.y + height
  }

  /** With a non-negative size, the four corners are inside the rectangle, and a
      point is outside as soon as either coordinate leaves its closed range. */
  lemma ClickedBounds(position: Vec2, width: real, height: real, mouse: Vec2)
    requires width >= 0.0 && height >= 0.0
    ensures Clicked(position, width, height, position)
    ensures Clicked(position, width, height, Vec2(position.x + width, position.y + height))
    ensures mouse.x < position.x || mouse.x > position.x + width ==> !Clicked(position, width, height, mouse)
    ensures mouse.y < position.y || mouse.y > position.y + height ==> !Clicked(position, width, height, mouse)
  {
  }

  datatype ColorButton = ColorButton(position: Vec2, width: real, height: real, color: Color, selected: bool)

  /** `ColorButton::new`: a button starts unselected. */
  function NewColorButton(position: Vec2, width: real, height: real, color: Color): (b: ColorButton)
    ensures !b.selected
    ensures b.(selected := true) == ColorButton(position, width, height, color, true)
  {
    ColorButton(position, width, height, color, false)
  }

  predicate Hit(b: ColorButton, mouse: Vec2) {
    Clicked(b.position, b.width, b.height, mouse)
  }

  /** The index `update_color_selection` settles on: the last button hit, or -1. */
  function LastHit(bs: seq<ColorButton>, mouse: Vec2): (k: int)
    ensures -1 <= k < |bs|
    ensures k == -1 <==> forall i :: 0 <= i < |bs| ==> !Hit(bs[i], mouse)
    ensures k >= 0 ==> Hit(bs[k], mouse) && forall i :: k < i < |bs| ==> !Hit(bs[i], mouse)
  {
    if bs == [] then -1
    else if Hit(bs[|bs| - 1], mouse) then |bs| - 1
    else LastHit(bs[..|bs| - 1], mouse)
  }

  /** Button `k` is the only selected one. */
  predicate OnlySelected(bs: seq<ColorButton>, k: nat) {
    k < |bs| && bs[k].selected && forall i :: 0 <= i < |bs| && i != k ==> !bs[i].selected
  }

  /** The same buttons, up to their `selected` flags. */
  predicate SameButtons(a: seq<ColorButton>, b: seq<ColorButton>) {
    |a| == |b| && forall i :: 0 <= i < |a| ==> a[i].(selected := false) == b[i].(selected := false)
  }

  /** The x position of a column's buttons and the y position of its i-th button. */
  function ButtonY(i: nat): real {
    FirstY + (ButtonSize + Offset) * i as real
  }

  /** A column as `TitleScene::new` lays it out: one 64×64 button per colour, in
      list order, at x = `x`, starting at y = 48 and 72 apart. */
  predicate Layout(bs: seq<ColorButton>, x: real) {
    |bs| == |ColorList| &&
    forall i :: 0 <= i < |bs| ==>
      bs[i].position == Vec2(x, ButtonY(i)) && bs[i].width == ButtonSize && bs[i].height == ButtonSize &&
      bs[i].color == ColorList[i]
  }

  const LeftColumn: real := Offset
  const RightColumn: real := WindowWidth - ButtonSize - Offset

  /** A lower button starts more than a button's height below a higher one. */
  lemma ButtonsApart(i: nat, j: nat)
    ensures i < j ==> ButtonY(i) + ButtonSize < ButtonY(j)
  {
  }

  /** The buttons of one column are 8 apart, so one click hits at most one of them,
      and the last hit button is the only one hit. */
  lemma OneHitPerColumn(bs: seq<ColorButton>, x: real, mouse: Vec2)
    requires Layout(bs, x)
    ensures forall i: nat, j: nat :: i < |bs| && j < |bs| && Hit(bs[i], mouse) && Hit(bs[j], mouse) ==> i == j
    ensures LastHit(bs, mouse) >= 0 ==> forall i: nat :: i < |bs| && Hit(bs[i], mouse) ==> i == LastHit(bs, mouse)
  {
    forall i: nat, j: nat | i < |bs| && j < |bs| && Hit(bs[i], mouse) && Hit(bs[j], mouse) ensures i == j {
      ButtonsApart(i, j);
      ButtonsApart(j, i);
    }
  }

  /** The two columns are apart, so one click hits buttons of at most one player. */
  lemma ColumnsApart(p1: seq<ColorButton>, p2: seq<ColorButton>, mouse: Vec2)
    requires Layout(p1, LeftColumn) && Layout(p2, RightColumn)
    ensures LastHit(p1, mouse) == -1 || LastHit(p2, mouse) == -1
  {
  }

  /** `retain(|option| option.selected)`: the selected buttons, in order. */
  function Retain(bs: seq<ColorButton>): (r: seq<ColorButton>)
    ensures |r| <= |bs|
    ensures forall i :: 0 <= i < |r| ==> r[i].selected && r[i] in bs
    ensures forall i :: 0 <= i < |bs| && bs[i].selected ==> bs[i] in r
    ensures (forall i :: 0 <= i < |bs| ==> !bs[i].selected) <==> r == []
  {
    if bs == [] then []
    else
      assert forall i :: 1 <= i < |bs| ==> bs[i] == bs[1..][i - 1];
      (if bs[0].selected then [bs[0]] else []) + Retain(bs[1..])
  }

  /** `retain` keeps the order: the survivors of two runs of buttons are the
      survivors of the first followed by those of the second. */
  lemma {:induction false} RetainAppend(a: seq<ColorButton>, b: seq<ColorButton>)
    ensures Retain(a + b) == Retain(a) + Retain(b)
  {
    if a == [] {
      assert a + b == b;
    } else {
      assert (a + b)[0] == a[0] && (a + b)[1..] == a[1..] + b;
      RetainAppend(a[1..], b);
    }
  }

  /** With one selected button, `retain` leaves exactly that button. */
  lemma {:induction false} RetainOnlySelected(bs: seq<ColorButton>, k: nat)
    requires OnlySelected(bs, k)
    ensures Retain(bs) == [bs[k]]
  {
    if k == 0 {
      assert forall i :: 0 <= i < |bs[1..]| ==> !bs[1..][i].selected;
    } else {
      assert OnlySelected(bs[1..], k - 1);
      RetainOnlySelected(bs[1..], k - 1);
    }
  }

  /** The colour list has no repeats, so a colour's position is its index. */
  lemma ColorListPositions(i: nat)
    requires i < |ColorList|
    ensures Position(ColorList, ColorList[i]) == Some(i)
  {
    assert ColorList[0] != ColorList[1] && ColorList[0] != ColorList[2] && ColorList[0] != ColorList[3];
    assert ColorList[0] != ColorList[4] && ColorList[1] != ColorList[2] && ColorList[1] != ColorList[3];
    assert ColorList[1] != ColorList[4] && ColorList[2] != ColorList[3] && ColorList[2] != ColorList[4];
    assert ColorList[3] != ColorList[4];
    var p := Position(ColorList, ColorList[i]);
    assert p.Some?;
    assert ColorList[p.value] == ColorList[i];
  }

  /** What `start_game` needs of a column for its `[0]` and `unwrap` not to fail:
      a selected button, the first of which has a colour from the list. */
  predicate CanStart(bs: seq<ColorButton>) {
    Retain(bs) != [] && Retain(bs)[0].color in ColorList
  }

  /** The first loop of `update_color_selection`: the index of the last button
      the mouse is in, or -1. */
  method FindLastHit(selection: seq<ColorButton>, mouse: Vec2) returns (index: int)
    ensures index == LastHit(selection, mouse)
  {
    index := -1;
    for i := 0 to |selection|
      invariant -1 <= index < i
      invariant index == LastHit(selection[..i], mouse)
    {
      assert selection[..i + 1][..i] == selection[..i];
      if Hit(selection[i], mouse) {
        index := i;
      }
    }
    assert selection[..|selection|] == selection;
  }

  /** The second loop: every button of the column is deselected. */
  method Deselect(selection: seq<ColorButton>) returns (updated: seq<ColorButton>)
    ensures |updated| == |selection|
    ensures forall j :: 0 <= j < |updated| ==> updated[j] == selection[j].(selected := false)
  {
    updated := selection;
    for i := 0 to |updated|
      invariant |updated| == |selection|
      invariant forall j :: 0 <= j < i ==> updated[j] == selection[j].(selected := false)
      invariant forall j :: i <= j < |updated| ==> updated[j] == selection[j]
    {
      updated := updated[i := updated[i].(selected := false)];
    }
  }

  /** Deselecting all buttons and then selecting button `k` keeps the buttons and
      leaves `k` the only selected one. */
  lemma SelectOne(before: seq<ColorButton>, after: seq<ColorButton>, k: nat)
    requires k < |before| && |after| == |before|
    requires forall j :: 0 <= j < |after| && j != k ==> after[j] == before[j].(selected := false)
    requires after[k] == before[k].(selected := true)
    ensures SameButtons(after, before) && OnlySelected(after, k)
  {
  }

  /** Changing only `selected` flags keeps a column's layout. */
  lemma LayoutKept(before: seq<ColorButton>, after: seq<ColorButton>, x: real)
    requires SameButtons(after, before)
    ensures Layout(before, x) ==> Layout(after, x)
  {
    if Layout(before, x) {
      forall i | 0 <= i < |after|
        ensures after[i].position == Vec2(x, ButtonY(i)) && after[i].width == ButtonSize && after[i].height == ButtonSize
        ensures after[i].color == ColorList[i]
      {
        assert after[i].(selected := false) == before[i].(selected := false);
      }
    }
  }

  /** The colour pickers of `TitleScene` (its texts and mode buttons are not modelled). */
  class TitleScene {
    var player1Colors: seq<ColorButton>
    var player2Colors: seq<ColorButton>

    /** Both columns are laid out as built, each with exactly one selected button. */
    ghost predicate Valid()
      reads this
    {
      Layout(player1Colors, LeftColumn) && Layout(player2Colors, RightColumn) &&
      (exists k :: OnlySelected(player1Colors, k)) && (exists k :: OnlySelected(player2Colors, k))
    }

    /** `TitleScene::new`, colour pickers only: a button per colour and player,
        moving down 72 for each colour; player 1 starts on the first colour and
        player 2 on the second. */
    constructor ()
      ensures Valid()
      ensures OnlySelected(player1Colors, 0) && OnlySelected(player2Colors, 1)
    {
      var p1: seq<ColorButton> := [];
      var p2: seq<ColorButton> := [];
      var yPosition := FirstY;
      for i := 0 to |ColorList|
        invariant |p1| == i && |p2| == i
        invariant yPosition == ButtonY(i)
        invariant forall j :: 0 <= j < i ==> p1[j] == NewColorButton(Vec2(Offset, ButtonY(j)), ButtonSize, ButtonSize, ColorList[j])
        invariant forall j :: 0 <= j < i ==>
          p2[j] == NewColorButton(Vec2(WindowWidth - ButtonSize - Offset, ButtonY(j)), ButtonSize, ButtonSize, ColorList[j])
      {
        var color := ColorList[i];
        p1 := p1 + [NewColorButton(Vec2(Offset, yPosition), ButtonSize, ButtonSize, color)];
        p2 := p2 + [NewColorButton(Vec2(WindowWidth - ButtonSize - Offset, yPosition), ButtonSize, ButtonSize, color)];
        yPosition := yPosition + ButtonSize + Offset;
      }
      p1 := p1[0 := p1[0].(selected := true)];
      p2 := p2[1 := p2[1].(selected := true)];
      assert OnlySelected(p1, 0) && OnlySelected(p2, 1);
      player1Colors := p1;
      player2Colors := p2;
    }

    /** `update_color_selection`: player 1 picks from the first column and any other
        player number from the second. If a button of that column is hit, the last
        hit one becomes the only selected one; otherwise nothing changes. */
    method UpdateColorSelection(player: int, mouse: Vec2)
      modifies this
      ensures player == 1 ==> player2Colors == old(player2Colors)
      ensures player != 1 ==> player1Colors == old(player1Colors)
      ensures var before := if player == 1 then old(player1Colors) else old(player2Colors);
              var after := if player == 1 then player1Colors else player2Colors;
              var k := LastHit(before, mouse);
              (k == -1 ==> after == before) && (k >= 0 ==> SameButtons(after, before) && OnlySelected(after, k))
      ensures old(Valid()) ==> Valid()
    {
      var selection := if player == 1 then player1Colors else player2Colors;
      var index := FindLastHit(selection, mouse);
      if index >= 0 {
        var updated := Deselect(selection);
        updated := updated[index := updated[index].(selected := true)];
        SelectOne(selection, updated, index);
        if player == 1 {
          LayoutKept(selection, updated, LeftColumn);
          player1Colors := updated;
        } else {
          LayoutKept(selection, updated, RightColumn);
          player2Colors := updated;
        }
      }
    }

    /** The selection part of `start_game`: each column keeps only its selected
        buttons, and the index in the colour list of each survivor's colour is
        what the new game is started with. */
    method StartGame() returns (p1Color: nat, p2Color: nat)
      requires CanStart(player1Colors) && CanStart(player2Colors)
      modifies this
      ensures player1Colors == Retain(old(player1Colors)) && player2Colors == Retain(old(player2Colors))
      ensures Position(ColorList, player1Colors[0].color) == Some(p1Color)
      ensures Position(ColorList, player2Colors[0].color) == Some(p2Color)
      ensures forall k :: Layout(old(player1Colors), LeftColumn) && OnlySelected(old(player1Colors), k) ==> p1Color == k
      ensures forall k :: Layout(old(player2Colors), RightColumn) && OnlySelected(old(player2Colors), k) ==> p2Color == k
    {
      player1Colors := Retain(player1Colors);
      player2Colors := Retain(player2Colors);
      var first := Position(ColorList, player1Colors[0].color);
      var second := Position(ColorList, player2Colors[0].color);
      p1Color, p2Color := first.value, second.value;
      forall k | Layout(old(player1Colors), LeftColumn) && OnlySelected(old(player1Colors), k) ensures p1Color == k {
        RetainOnlySelected(old(player1Colors), k);
        ColorListPositions(k);
      }
      forall k | Layout(old(player2Colors), RightColumn) && OnlySelected(old(player2Colors), k) ensures p2Color == k {
        RetainOnlySelected(old(player2Colors), k);
        ColorListPositions(k);
      }
    }
  }

  /** Every column the title screen can be in can start a game. */
  lemma ValidCanStart(bs: seq<ColorButton>, x: real, k: nat)
    requires Layout(bs, x) && OnlySelected(bs, k)
    ensures CanStart(bs)
  {
    RetainOnlySelected(bs, k);
  }
}
