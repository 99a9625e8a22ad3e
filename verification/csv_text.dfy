// The shapes of text the csv writers build by repeated concatenation: a list
// of items each followed by a separator, and a first field followed by
// ","-prefixed ones.  Reading such text back with the matching split gives
// the items again.

module CsvText {
  import opened JavaLang

  /** Every item followed by `c`: the text a loop of `text += item + c`
      builds. */
  function Terminated(items: seq<string>, c: char): string {
    if |items| == 0 then "" else items[0] + [c] + Terminated(items[1..], c)
  }

  /** Every item preceded by `c`: the text a loop of `text += c + item`
      builds. */
  function Prefixed(items: seq<string>, c: char): string {
    if |items| == 0 then "" else [c] + items[0] + Prefixed(items[1..], c)
  }

  /** No item holds the separator. */
  predicate Clean(items: seq<string>, c: char) {
    forall k :: 0 <= k < |items| ==> c !in items[k]
  }

  /** Terminated text is the join of the items and a final empty piece. */
  lemma {:induction false} TerminatedIsJoin(items: seq<string>, c: char)
    ensures Terminated(items, c) == Join(items + [""], c)
    decreases |items|
  {
    if |items| > 0 {
      TerminatedIsJoin(items[1..], c);
      assert (items + [""])[1..] == items[1..] + [""];
    }
  }

  /** A first field and prefixed fields are the join of all of them. */
  lemma {:induction false} PrefixedIsJoin(first: string, items: seq<string>, c: char)
    ensures first + Prefixed(items, c) == Join([first] + items, c)
    decreases |items|
  {
    if |items| > 0 {
      PrefixedIsJoin(items[0], items[1..], c);
      assert [items[0]] + items[1..] == items;
      assert ([first] + items)[1..] == items;
    }
  }

  /** Reading terminated text back: one piece per item, then the empty piece
      after the last separator. */
  lemma ReadTerminated(items: seq<string>, c: char)
    requires Clean(items, c)
    ensures SplitAll(Terminated(items, c), c) == items + [""]
  {
    TerminatedIsJoin(items, c);
    SplitAllJoin(items + [""], c);
  }

  /** Reading prefixed fields back: the first field, then one per item. */
  lemma ReadPrefixed(first: string, items: seq<string>, c: char)
    requires c !in first && Clean(items, c)
    ensures SplitAll(first + Prefixed(items, c), c) == [first] + items
  {
    PrefixedIsJoin(first, items, c);
    SplitAllJoin([first] + items, c);
  }

  /** Terminated text of two lists is the text of the first then the second. */
  lemma {:induction false} TerminatedConcat(a: seq<string>, b: seq<string>, c: char)
    ensures Terminated(a + b, c) == Terminated(a, c) + Terminated(b, c)
    decreases |a|
  {
    if |a| > 0 {
      TerminatedConcat(a[1..], b, c);
      assert (a + b)[1..] == a[1..] + b;
    } else {
      assert a + b == b;
    }
  }

  /** Appending one item to a terminated text. */
  lemma TerminatedSnoc(a: seq<string>, x: string, c: char)
    ensures Terminated(a + [x], c) == Terminated(a, c) + x + [c]
  {
    TerminatedConcat(a, [x], c);
    assert Terminated([x], c) == x + [c] + Terminated([], c);
  }
}
