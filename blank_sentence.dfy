/**
 * A fill-in-the-blank sentence as it is displayed: the text is cut at the
 * blank marker with JavaScript's `split`, the first two pieces are shown on
 * either side of the blank, and the blank holds an empty box, the correct
 * answer, or the struck-through choice followed by the correct answer.
 */
module BlankSentence {
  import opened Wrappers

  /** The blank marker `___` in generated sentences. */
  const BLANK: string := "___"

  /**
   * `s.split(sep)`: the pieces between the leftmost non-overlapping
   * occurrences of `sep`, scanning left to right.
   */
  function Split(s: string, sep: string): (parts: seq<string>)
    requires |sep| > 0
    ensures |parts| >= 1
    decreases |s|
  {
    if |s| < |sep| then [s]
    else if s[..|sep|] == sep then [""] + Split(s[|sep|..], sep)
    else
      var rest := Split(s[1..], sep);
      [[s[0]] + rest[0]] + rest[1..]
  }

  /**
   * The split cuts at the leftmost marker: the first piece is the text
   * before it, in which no marker starts, and it is the whole string
   * exactly when there is no marker at all.
   */
  lemma {:induction false} SplitAtLeftmostMarker(s: string, sep: string)
    requires |sep| > 0
    ensures Split(s, sep)[0] <= s
    ensures forall i :: 0 <= i < |Split(s, sep)[0]| ==> !MarkerAt(s, sep, i)
    ensures |Split(s, sep)| >= 2 <==> MarkerAt(s, sep, |Split(s, sep)[0]|)
    ensures |Split(s, sep)| == 1 ==> Split(s, sep)[0] == s
    decreases |s|
  {
    if |s| < |sep| {
    } else if s[..|sep|] == sep {
      assert MarkerAt(s, sep, 0) by {
        assert s[0..0 + |sep|] == s[..|sep|];
      }
    } else {
      SplitAtLeftmostMarker(s[1..], sep);
      ExtendFirstPiece(s, sep, Split(s[1..], sep));
    }
  }

  /**
   * The step of `Split` past a character that does not start a marker:
   * if `rest` is cut at the leftmost marker of `s[1..]`, then `rest` with
   * `s[0]` prepended to its first piece is cut at the leftmost marker of `s`.
   */
  lemma ExtendFirstPiece(s: string, sep: string, rest: seq<string>)
    requires |sep| > 0 && |s| >= |sep| && s[..|sep|] != sep
    requires |rest| >= 1 && rest[0] <= s[1..]
    requires forall i :: 0 <= i < |rest[0]| ==> !MarkerAt(s[1..], sep, i)
    requires |rest| >= 2 <==> MarkerAt(s[1..], sep, |rest[0]|)
    requires |rest| == 1 ==> rest[0] == s[1..]
    ensures var parts := [[s[0]] + rest[0]] + rest[1..];
      && parts[0] <= s
      && (forall i :: 0 <= i < |parts[0]| ==> !MarkerAt(s, sep, i))
      && (|parts| >= 2 <==> MarkerAt(s, sep, |parts[0]|))
      && (|parts| == 1 ==> parts[0] == s)
  {
    var parts := [[s[0]] + rest[0]] + rest[1..];
    assert !MarkerAt(s, sep, 0) by {
      assert s[0..0 + |sep|] == s[..|sep|];
    }
    forall i | 0 <= i < |parts[0]|
      ensures !MarkerAt(s, sep, i)
    {
      if i > 0 {
        MarkerDrop(s, sep, 1, i - 1);
      }
    }
    MarkerDrop(s, sep, 1, |rest[0]|);
    if |parts| == 1 {
      assert s == [s[0]] + s[1..];
    }
  }

  /** After the first piece and its marker, the pieces are the split of the rest of the string. */
  lemma {:induction false} SplitRest(s: string, sep: string)
    requires |sep| > 0 && |Split(s, sep)| >= 2
    ensures |Split(s, sep)[0]| + |sep| <= |s|
    ensures Split(s, sep)[1..] == Split(s[|Split(s, sep)[0]| + |sep|..], sep)
    decreases |s|
  {
    var parts := Split(s, sep);
    if s[..|sep|] == sep {
      var rest := Split(s[|sep|..], sep);
      assert parts == [""] + rest;
      assert parts[1..] == rest;
    } else {
      var tail := s[1..];
      var rest := Split(tail, sep);
      assert parts == [[s[0]] + rest[0]] + rest[1..];
      SplitRest(tail, sep);
      var k := |rest[0]| + |sep|;
      assert |parts[0]| + |sep| == k + 1;
      assert tail[k..] == s[k + 1..];
      calc {
        parts[1..];
        rest[1..];
        Split(tail[k..], sep);
        Split(s[k + 1..], sep);
      }
    }
  }

  /** The piece after the first marker begins the split of the rest of the string. */
  lemma SplitNext(s: string, sep: string)
    requires |sep| > 0 && |Split(s, sep)| >= 2
    ensures |Split(s, sep)[0]| + |sep| <= |s|
    ensures |Split(s[|Split(s, sep)[0]| + |sep|..], sep)| == |Split(s, sep)| - 1
    ensures Split(s[|Split(s, sep)[0]| + |sep|..], sep)[0] == Split(s, sep)[1]
  {
    SplitRest(s, sep);
  }

  /** `parts.join(sep)`: the pieces with the marker between each two. */
  function Join(parts: seq<string>, sep: string): string
  {
    if parts == [] then ""
    else if |parts| == 1 then parts[0]
    else parts[0] + sep + Join(parts[1..], sep)
  }

  /** Splitting loses nothing: joining the pieces back gives the sentence. */
  lemma {:induction false} SplitJoin(s: string, sep: string)
    requires |sep| > 0
    ensures Join(Split(s, sep), sep) == s
    decreases |s|
  {
    if |s| < |sep| {
    } else if s[..|sep|] == sep {
      var rest := Split(s[|sep|..], sep);
      assert Split(s, sep) == [""] + rest;
      SplitJoin(s[|sep|..], sep);
      assert ([""] + rest)[1..] == rest;
      assert Join([""] + rest, sep) == "" + sep + Join(rest, sep);
      assert s == sep + s[|sep|..];
    } else {
      var rest := Split(s[1..], sep);
      assert Split(s, sep) == [[s[0]] + rest[0]] + rest[1..];
      SplitJoin(s[1..], sep);
      JoinExtendsFirst(s[0], rest, sep);
      assert s == [s[0]] + s[1..];
    }
  }

  /** Prepending a character to the first piece prepends it to the joined string. */
  lemma JoinExtendsFirst(c: char, parts: seq<string>, sep: string)
    requires |parts| >= 1
    ensures Join([[c] + parts[0]] + parts[1..], sep) == [c] + Join(parts, sep)
  {
    var extended := [[c] + parts[0]] + parts[1..];
    if |parts| > 1 {
      assert extended[1..] == parts[1..];
    }
  }

  /** The separator occurs in `s` starting at position `i`. */
  predicate MarkerAt(s: string, sep: string, i: nat)
  {
    i + |sep| <= |s| && s[i..i + |sep|] == sep
  }

  /** No marker starts in `s` before position `n`. */
  predicate NoMarkerBefore(s: string, sep: string, n: nat)
  {
    forall i :: 0 <= i < n ==> !MarkerAt(s, sep, i)
  }

  /** Dropping the first `k` characters moves every occurrence of the marker `k` places left. */
  lemma MarkerDrop(s: string, sep: string, k: nat, i: nat)
    requires k <= |s|
    ensures MarkerAt(s, sep, k + i) <==> MarkerAt(s[k..], sep, i)
  {
    if k + i + |sep| <= |s| {
      assert s[k..][i..i + |sep|] == s[k + i..k + i + |sep|];
    }
  }

  /** A marker inside a prefix of `s` is a marker of `s`. */
  lemma MarkerInPrefix(p: string, s: string, sep: string, i: nat)
    requires p <= s && MarkerAt(p, sep, i)
    ensures MarkerAt(s, sep, i)
  {
    assert p[i..i + |sep|] == s[i..i + |sep|];
  }

  /** No piece of the split contains the marker. */
  lemma {:induction false} SplitPiecesMarkerFree(s: string, sep: string)
    requires |sep| > 0
    ensures forall k, i: nat :: 0 <= k < |Split(s, sep)| ==> !MarkerAt(Split(s, sep)[k], sep, i)
    decreases |s|
  {
    var parts := Split(s, sep);
    SplitAtLeftmostMarker(s, sep);
    forall i: nat
      ensures !MarkerAt(parts[0], sep, i)
    {
      if MarkerAt(parts[0], sep, i) {
        MarkerInPrefix(parts[0], s, sep, i);
      }
    }
    if |parts| >= 2 {
      SplitRest(s, sep);
      var rest := s[|parts[0]| + |sep|..];
      SplitPiecesMarkerFree(rest, sep);
      forall k, i: nat | 1 <= k < |parts|
        ensures !MarkerAt(parts[k], sep, i)
      {
        assert parts[k] == Split(rest, sep)[k - 1];
      }
    }
  }

  /** A string in which the marker never occurs is a single piece. */
  lemma {:induction false} SplitWithoutMarker(s: string, sep: string)
    requires |sep| > 0
    requires forall i: nat :: !MarkerAt(s, sep, i)
    ensures Split(s, sep) == [s]
    decreases |s|
  {
    if |s| >= |sep| {
      assert !MarkerAt(s, sep, 0);
      assert s[..|sep|] == s[0..0 + |sep|];
      forall i: nat
        ensures !MarkerAt(s[1..], sep, i)
      {
        assert !MarkerAt(s, sep, i + 1);
        if i + |sep| <= |s[1..]| {
          assert s[1..][i..i + |sep|] == s[i + 1..i + 1 + |sep|];
        }
      }
      SplitWithoutMarker(s[1..], sep);
      assert Split(s, sep) == [[s[0]] + s[1..]];
      assert [s[0]] + s[1..] == s;
    }
  }

  /** `parts[i]` as React renders it: a missing piece is `undefined`, which shows nothing. */
  function Piece(parts: seq<string>, i: nat): string
  {
    if i < |parts| then parts[i] else ""
  }

  /** What stands in the blank. */
  datatype BlankContent =
    | EmptyBox
    | ShowAnswer(answer: string)
    | ShowCorrection(chosen: string, answer: string)

  /** The sentence line: the text before the blank, the blank, the text after it. */
  datatype SentenceView = SentenceView(before: string, content: BlankContent, after: string)

  /**
   * The content of the blank: an empty box until the answer is submitted,
   * then the correct answer alone when the choice matches it, else the
   * choice struck through followed by the correct answer. A `null` choice
   * renders as nothing, like the empty string.
   */
  function ContentFor(isSubmitted: bool, selectedAnswer: Option<string>, answer: string): (c: BlankContent)
    ensures c.EmptyBox? <==> !isSubmitted
    ensures c.ShowAnswer? <==> isSubmitted && selectedAnswer == Some(answer)
    ensures c.ShowAnswer? ==> c.answer == answer
    ensures c.ShowCorrection? ==> c.answer == answer && c.chosen == selectedAnswer.GetOr("") && selectedAnswer != Some(answer)
  {
    if !isSubmitted then EmptyBox
    else if selectedAnswer == Some(answer) then ShowAnswer(answer)
    else ShowCorrection(selectedAnswer.GetOr(""), answer)
  }

  /**
   * The sentence cut at the blank, with `content` between the first two
   * pieces: `before` is the text up to the leftmost marker, `after` the text
   * from there up to the next marker or the end, and neither holds a marker.
   * Any further pieces are not shown.
   */
  function Render(sentence: string, content: BlankContent): (v: SentenceView)
    ensures v.content == content
    ensures Split(sentence, BLANK) == [sentence] ==> v.before == sentence && v.after == ""
    ensures forall i: nat :: !MarkerAt(v.before, BLANK, i) && !MarkerAt(v.after, BLANK, i)
    ensures |Split(sentence, BLANK)| >= 2 ==>
      && v.before <= sentence
      && MarkerAt(sentence, BLANK, |v.before|)
      && NoMarkerBefore(sentence, BLANK, |v.before|)
      && v.after <= sentence[|v.before| + |BLANK|..]
      && NoMarkerBefore(sentence[|v.before| + |BLANK|..], BLANK, |v.after|)
    ensures |Split(sentence, BLANK)| == 2 ==> v.before + BLANK + v.after == sentence
    ensures |Split(sentence, BLANK)| > 2 ==> MarkerAt(sentence[|v.before| + |BLANK|..], BLANK, |v.after|)
  {
    var parts := Split(sentence, BLANK);
    SplitAtLeftmostMarker(sentence, BLANK);
    SplitPiecesMarkerFree(sentence, BLANK);
    var v := SentenceView(Piece(parts, 0), content, Piece(parts, 1));
    if |parts| >= 2 then
      var rest := sentence[|parts[0]| + |BLANK|..];
      SplitNext(sentence, BLANK);
      SplitAtLeftmostMarker(rest, BLANK);
      if |parts| == 2 then TwoPieces(sentence, BLANK); v else v
    else v
  }

  /** A string with exactly one marker is its two pieces around that marker. */
  lemma TwoPieces(s: string, sep: string)
    requires |sep| > 0 && |Split(s, sep)| == 2
    ensures Split(s, sep)[0] + sep + Split(s, sep)[1] == s
  {
    SplitJoin(s, sep);
    JoinTwo(Split(s, sep), sep);
  }

  /** With exactly two pieces, joining them is the first, the marker, the second. */
  lemma JoinTwo(parts: seq<string>, sep: string)
    requires |parts| == 2
    ensures Join(parts, sep) == parts[0] + sep + parts[1]
  {
    assert Join(parts, sep) == parts[0] + sep + Join(parts[1..], sep);
  }
}
