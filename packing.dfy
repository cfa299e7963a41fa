/**
  Greedy packing, the scheme both prompt builders of `ragchat/generator.py` follow: the
  items are added one at a time with a step function, each candidate is kept while it
  fits the budget, and packing stops at the first candidate that does not fit.
 */
module Packing {
  import opened Strings

  /** The text after adding all of `items` to `start`, one step at a time. */
  function Fold(step: (Text, Text) -> Text, start: Text, items: seq<Text>): Text
  {
    if items == [] then start
    else step(Fold(step, start, items[..|items| - 1]), items[|items| - 1])
  }

  /** The text after the item at index `j` has been added. */
  function AfterItem(step: (Text, Text) -> Text, start: Text, items: seq<Text>, j: nat): Text
    requires j < |items|
  {
    Fold(step, start, items[..j + 1])
  }

  lemma FoldSnoc(step: (Text, Text) -> Text, start: Text, items: seq<Text>, i: nat)
    requires i < |items|
    ensures Fold(step, start, items[..i + 1]) == step(Fold(step, start, items[..i]), items[i])
  {
    assert items[..i + 1][..i] == items[..i];
  }

  /**
    The number of items greedy packing accepts, when the first `from` have been
    accepted: every accepted prefix fits, and the next one, if any, does not.
   */
  function AcceptedFrom(step: (Text, Text) -> Text, fits: Text -> bool, start: Text, items: seq<Text>, from: nat): (n: nat)
    requires from <= |items|
    ensures from <= n <= |items|
    ensures forall j :: from <= j < n ==> fits(AfterItem(step, start, items, j))
    ensures n < |items| ==> !fits(AfterItem(step, start, items, n))
    decreases |items| - from
  {
    if from == |items| then from
    else if fits(AfterItem(step, start, items, from)) then AcceptedFrom(step, fits, start, items, from + 1)
    else from
  }

  function Accepted(step: (Text, Text) -> Text, fits: Text -> bool, start: Text, items: seq<Text>): nat
  {
    AcceptedFrom(step, fits, start, items, 0)
  }

  /** The text greedy packing produces. */
  function Packed(step: (Text, Text) -> Text, fits: Text -> bool, start: Text, items: seq<Text>): Text
  {
    Fold(step, start, items[..Accepted(step, fits, start, items)])
  }

  /** The accepted items form the longest prefix whose every step fits. */
  predicate GreedyPrefix(step: (Text, Text) -> Text, fits: Text -> bool, start: Text, items: seq<Text>, n: nat) {
    && n <= |items|
    && (forall j :: 0 <= j < n ==> fits(AfterItem(step, start, items, j)))
    && (n < |items| ==> !fits(AfterItem(step, start, items, n)))
  }

  /**
    Greedy packing keeps the prefix of `n` items where `n` is the only count with the
    greedy property: an item after the first one that does not fit is never added,
    however small.
   */
  lemma PackedIsGreedyPrefix(step: (Text, Text) -> Text, fits: Text -> bool, start: Text, items: seq<Text>, n: nat)
    requires GreedyPrefix(step, fits, start, items, n)
    ensures Accepted(step, fits, start, items) == n
    ensures Packed(step, fits, start, items) == Fold(step, start, items[..n])
  {
    var a := Accepted(step, fits, start, items);
    assert GreedyPrefix(step, fits, start, items, a);
  }

  /** When every item fits, all are packed. */
  lemma PackedAll(step: (Text, Text) -> Text, fits: Text -> bool, start: Text, items: seq<Text>)
    requires forall j :: 0 <= j < |items| ==> fits(AfterItem(step, start, items, j))
    ensures Packed(step, fits, start, items) == Fold(step, start, items)
  {
    PackedIsGreedyPrefix(step, fits, start, items, |items|);
    assert items[..|items|] == items;
  }

  /** When the first item does not fit, nothing is packed. */
  lemma PackedNone(step: (Text, Text) -> Text, fits: Text -> bool, start: Text, items: seq<Text>)
    requires items != [] && !fits(step(start, items[0]))
    ensures Packed(step, fits, start, items) == start
  {
    FoldSnoc(step, start, items, 0);
    assert items[..0] == [];
    assert !fits(AfterItem(step, start, items, 0));
    PackedIsGreedyPrefix(step, fits, start, items, 0);
  }

  /**
    One step of the packing loop: when the first `i` items are accepted and the text so
    far is their fold, a candidate that fits is the fold of `i + 1` items, and one that
    does not fit ends packing with the text so far.
   */
  lemma PackStep(step: (Text, Text) -> Text, fits: Text -> bool, start: Text, items: seq<Text>, i: nat)
    requires i < |items|
    requires AcceptedFrom(step, fits, start, items, i) == Accepted(step, fits, start, items)
    ensures Fold(step, start, items[..i + 1]) == step(Fold(step, start, items[..i]), items[i])
    ensures fits(step(Fold(step, start, items[..i]), items[i])) ==>
              AcceptedFrom(step, fits, start, items, i + 1) == Accepted(step, fits, start, items)
    ensures !fits(step(Fold(step, start, items[..i]), items[i])) ==>
              Packed(step, fits, start, items) == Fold(step, start, items[..i])
  {
    FoldSnoc(step, start, items, i);
  }

  /** Packing that reaches the end of the items accepted all of them. */
  lemma PackEnd(step: (Text, Text) -> Text, fits: Text -> bool, start: Text, items: seq<Text>)
    requires AcceptedFrom(step, fits, start, items, |items|) == Accepted(step, fits, start, items)
    ensures Packed(step, fits, start, items) == Fold(step, start, items)
  {
    assert items[..|items|] == items;
  }
}
