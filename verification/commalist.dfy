/**
 The comma-separated text format: history deltas are stored as `list.join(",")`,
 and the earliest revision reads its input lists back with `text.split(",")`.
 */
module CommaList {

  /** `xs.join(",")`. */
  function Join(xs: seq<string>): (r: string)
    ensures r == "" <==> xs == [] || xs == [""]
  {
    if xs == [] then ""
    else if |xs| == 1 then xs[0]
    else xs[0] + "," + Join(xs[1..])
  }

  /** `text.split(",")`: the pieces between the commas, none holding a comma. */
  function Split(text: string): (r: seq<string>)
    ensures |r| > 0
    ensures forall k | 0 <= k < |r| :: ',' !in r[k]
  {
    if text == [] then [""]
    else
      var rest := Split(text[1..]);
      if text[0] == ',' then [""] + rest
      else
        assert forall k | 1 <= k < |rest| :: ([[text[0]] + rest[0]] + rest[1..])[k] == rest[k];
        [[text[0]] + rest[0]] + rest[1..]
  }

  /** A split always has one more piece than the text has commas. */
  lemma {:induction false} SplitCount(text: string)
    ensures |Split(text)| == multiset(text)[','] + 1
  {
    if text != [] {
      SplitCount(text[1..]);
      assert text == [text[0]] + text[1..];
      assert multiset(text) == multiset{text[0]} + multiset(text[1..]);
    }
  }

  /** Joining the pieces of a split gives the text back: no text is lost by splitting. */
  lemma {:induction false} SplitJoin(text: string)
    ensures Join(Split(text)) == text
  {
    if text != [] {
      var rest := Split(text[1..]);
      SplitJoin(text[1..]);
      if text[0] == ',' {
        JoinCons("", rest);
      } else {
        JoinPrependChar(text[0], rest);
      }
      assert text == [text[0]] + text[1..];
    }
  }

  /** Joining after a leading name puts one comma between it and the rest. */
  lemma JoinCons(x: string, tail: seq<string>)
    requires |tail| > 0
    ensures Join([x] + tail) == x + "," + Join(tail)
  {
    assert ([x] + tail)[1..] == tail;
  }

  /** Prefixing a character to the first name prefixes it to the joined text. */
  lemma {:induction false} JoinPrependChar(c: char, xs: seq<string>)
    requires |xs| > 0
    ensures Join([[c] + xs[0]] + xs[1..]) == [c] + Join(xs)
  {
    var ys := [[c] + xs[0]] + xs[1..];
    if |xs| == 1 {
      assert |ys| == 1;
    } else {
      assert ys[1..] == xs[1..];
      var j := Join(xs[1..]);
      assert Join(ys) == ([c] + xs[0]) + "," + j;
    }
  }

  /** Splitting after a comma-free first piece yields that piece and the split of the rest. */
  lemma {:induction false} SplitAfterPiece(piece: string, tail: string)
    requires ',' !in piece
    ensures Split(piece + "," + tail) == [piece] + Split(tail)
  {
    if piece == [] {
      assert piece + "," + tail == [','] + tail;
      assert ([','] + tail)[1..] == tail;
    } else {
      var text := piece + "," + tail;
      assert text[1..] == piece[1..] + "," + tail;
      SplitAfterPiece(piece[1..], tail);
      assert [piece[0]] + piece[1..] == piece;
    }
  }

  /** A comma-free text splits into itself alone. */
  lemma {:induction false} SplitCommaFree(text: string)
    requires ',' !in text
    ensures Split(text) == [text]
  {
    if text != [] {
      SplitCommaFree(text[1..]);
      assert [text[0]] + text[1..] == text;
    }
  }

  /** Splitting a joined, non-empty list of comma-free names returns the list. */
  lemma {:induction false} JoinSplit(xs: seq<string>)
    requires |xs| > 0
    requires forall k | 0 <= k < |xs| :: ',' !in xs[k]
    ensures Split(Join(xs)) == xs
  {
    if |xs| == 1 {
      SplitCommaFree(xs[0]);
    } else {
      JoinSplit(xs[1..]);
      SplitAfterPiece(xs[0], Join(xs[1..]));
      assert [xs[0]] + xs[1..] == xs;
    }
  }

  /**
   The split of the empty text is one blank name, not an empty list, so the empty list
   does not survive a join followed by a split.
   */
  lemma EmptyTextSplitsToBlankName()
    ensures Split("") == [""]
    ensures Split(Join([])) != []
  {
  }

  /** Reads a comma-separated list, taking the empty text as the empty list. */
  function ParseList(text: string): (r: seq<string>)
    ensures text == "" <==> r == []
    ensures forall k | 0 <= k < |r| :: ',' !in r[k]
  {
    if text == "" then [] else Split(text)
  }

  /** Names that a comma-joined list can carry without loss: none blank, none with a comma. */
  predicate Listable(xs: seq<string>) {
    forall x | x in xs :: x != "" && ',' !in x
  }

  /** Every list of non-blank, comma-free names survives a join followed by a parse. */
  lemma ParseJoinRoundTrip(xs: seq<string>)
    requires Listable(xs)
    ensures ParseList(Join(xs)) == xs
  {
    if xs != [] {
      JoinSplit(xs);
    }
  }
}
