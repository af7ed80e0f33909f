/**
 * The insertion point of a drag: while a card is dragged over a column, the placeholder goes
 * in front of the first other card, in document order, whose vertical midpoint lies strictly
 * below the pointer, and at the end of the column when there is no such card.
 */
module DropPoint {
  import opened Optional

  /** A card in a column body as the drag-over handler sees it: its task, its box, and whether it is the card being dragged. */
  datatype Card = Card(taskId: string, top: real, height: real, dragging: bool)

  /** The vertical midpoint of a card's box. */
  function Midpoint(c: Card): real {
    c.top + c.height / 2.0
  }

  /** The cards the search looks at: all but the dragged one, in document order. */
  function Candidates(cards: seq<Card>): (r: seq<Card>)
    ensures |r| <= |cards|
    ensures forall k :: 0 <= k < |r| ==> !r[k].dragging && r[k] in cards
    ensures forall c :: c in cards && !c.dragging ==> c in r
  {
    if cards == [] then []
    else
      assert cards == [cards[0]] + cards[1..];
      (if cards[0].dragging then [] else [cards[0]]) + Candidates(cards[1..])
  }

  /** The candidates of two runs of cards are the candidates of each, in the same order. */
  lemma {:induction false} CandidatesConcat(a: seq<Card>, b: seq<Card>)
    ensures Candidates(a + b) == Candidates(a) + Candidates(b)
  {
    if a != [] {
      assert (a + b)[1..] == a[1..] + b;
      CandidatesConcat(a[1..], b);
    } else {
      assert a + b == b;
    }
  }

  /**
   * The drag-over search: the position among the candidates of the card the placeholder goes
   * in front of, or `None` for the end of the column. The comparison is strict, so a pointer
   * exactly at a card's midpoint does not choose that card.
   */
  method InsertBefore(cards: seq<Card>, y: real) returns (r: Option<nat>)
    ensures var cs := Candidates(cards);
      match r
      case None => forall k :: 0 <= k < |cs| ==> Midpoint(cs[k]) <= y
      case Some(k) => k < |cs| && y < Midpoint(cs[k]) && forall j :: 0 <= j < k ==> Midpoint(cs[j]) <= y
  {
    var cs := Candidates(cards);
    r := None;
    var i := 0;
    while i < |cs|
      invariant 0 <= i <= |cs|
      invariant r.None?
      invariant forall j :: 0 <= j < i ==> Midpoint(cs[j]) <= y
    {
      if y < Midpoint(cs[i]) {
        r := Some(i);
        break;
      }
      i := i + 1;
    }
  }
}
