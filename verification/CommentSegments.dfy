/** Feeding JSON text with C comments to a parser that knows no comments (jsonobject.cpp).

    The text is cut into parsable segments on the fly.  The reference is a scanner that looks at one
    character at a time and is either inside or outside a comment.
  */
module CommentSegments {
  import opened Options
  import opened Sequences

  datatype Segment = Segment(start: nat, len: nat)

  /** A comment starts, or ends, at position i; the text ends with a character that is neither. */
  predicate DelimiterAt(text: string, i: nat, starting: bool) {
    i + 1 < |text| && text[i] == (if starting then '/' else '*') && text[i + 1] == (if starting then '*' else '/')
  }

  predicate NoDelimiter(text: string, from: nat, to: nat, starting: bool) {
    forall i :: from <= i < to ==> !DelimiterAt(text, i, starting)
  }

  /** The text from position i on without its comments. */
  function Strip(text: string, i: nat, inComment: bool): string
    decreases |text| - i
  {
    if i >= |text| then ""
    else if DelimiterAt(text, i, !inComment) then Strip(text, i + 2, !inComment)
    else if inComment then Strip(text, i + 1, true)
    else [text[i]] + Strip(text, i + 1, false)
  }

  /** What is left to be parsed from position i on; without comments allowed, that is everything. */
  function Parsable(text: string, i: nat, allowCComments: bool, inComment: bool): string
    requires i <= |text|
  {
    if allowCComments then Strip(text, i, inComment) else text[i..]
  }

  method NextCommentDelimiter(starting: bool, text: string, from: nat) returns (found: Option<nat>)
    requires from <= |text|
    ensures found.None? ==> NoDelimiter(text, from, |text|, starting)
    ensures found.Some? ==> from <= found.value && DelimiterAt(text, found.value, starting)
                            && NoDelimiter(text, from, found.value, starting)
  {
    var pos := from;
    while pos < |text|
      invariant from <= pos <= |text| && NoDelimiter(text, from, pos, starting)
    {
      if DelimiterAt(text, pos, starting) {
        return Some(pos);
      }
      pos := pos + 1;
    }
    return None;
  }

  /** Up to the next delimiter the scanner copies everything, or skips everything. */
  lemma {:induction false} StripUpTo(text: string, i: nat, j: nat, inComment: bool)
    requires i <= j <= |text| && NoDelimiter(text, i, j, !inComment)
    ensures Strip(text, i, inComment) == (if inComment then "" else text[i..j]) + Strip(text, j, inComment)
    decreases j - i
  {
    if i < j {
      StripUpTo(text, i + 1, j, inComment);
    }
  }

  /** The next segment and where to go on after it; no segment at the end of the text. */
  method NextParsableSegment(text: string, from: nat, allowCComments: bool, inComment: bool)
    returns (seg: Option<Segment>, pos: nat, nowInComment: bool)
    requires from <= |text| && (inComment ==> allowCComments)
    ensures from <= pos <= |text| && (nowInComment ==> allowCComments)
    ensures seg.Some? ==> from < pos && from <= seg.value.start && seg.value.start + seg.value.len <= pos
    ensures seg.None? ==> pos == |text|
    ensures Parsable(text, from, allowCComments, inComment) ==
            match seg
            case None => ""
            case Some(s) => text[s.start..s.start + s.len] + Parsable(text, pos, allowCComments, nowInComment)
  {
    pos, nowInComment := from, inComment;
    if allowCComments {
      var cc := NextCommentDelimiter(!nowInComment, text, pos);
      while cc.Some?
        invariant from <= pos <= |text|
        invariant Strip(text, from, inComment) == Strip(text, pos, nowInComment)
        invariant cc.None? ==> NoDelimiter(text, pos, |text|, !nowInComment)
        invariant cc.Some? ==> pos <= cc.value && DelimiterAt(text, cc.value, !nowInComment)
                               && NoDelimiter(text, pos, cc.value, !nowInComment)
        decreases |text| - pos
      {
        StripUpTo(text, pos, cc.value, nowInComment);
        nowInComment := !nowInComment;
        var start := pos;
        pos := cc.value + 2;
        if nowInComment {
          return Some(Segment(start, cc.value - start)), pos, nowInComment;
        }
        cc := NextCommentDelimiter(!nowInComment, text, pos);
      }
      StripUpTo(text, pos, |text|, nowInComment);
      if nowInComment {
        return None, |text|, nowInComment;
      }
    }
    seg := if pos < |text| then Some(Segment(pos, |text| - pos)) else None;
    pos := |text|;
  }

  /** The segment loop of objFromText(): what reaches the parser, piece by piece, is the text without
      its comments. */
  method FeedParser(text: string, allowCComments: bool) returns (fed: string)
    ensures fed == Parsable(text, 0, allowCComments, false)
  {
    fed := "";
    var pos: nat, inComment := 0, false;
    while true
      invariant pos <= |text| && (inComment ==> allowCComments)
      invariant fed + Parsable(text, pos, allowCComments, inComment) == Parsable(text, 0, allowCComments, false)
      decreases |text| - pos
    {
      ghost var rest := Parsable(text, pos, allowCComments, inComment);
      var seg;
      seg, pos, inComment := NextParsableSegment(text, pos, allowCComments, inComment);
      if seg.None? { break; }
      var piece := text[seg.value.start..seg.value.start + seg.value.len];
      Associate(fed, piece, rest, Parsable(text, pos, allowCComments, inComment));
      fed := fed + piece;
    }
  }

  // ----- What the scanner does

  lemma {:induction false} StripSuffix(a: string, b: string, i: nat, inComment: bool)
    requires i <= |b|
    ensures Strip(a + b, |a| + i, inComment) == Strip(b, i, inComment)
    decreases |b| - i
  {
    if i < |b| {
      assert DelimiterAt(a + b, |a| + i, !inComment) == DelimiterAt(b, i, !inComment);
      if DelimiterAt(b, i, !inComment) {
        StripSuffix(a, b, i + 2, !inComment);
      } else {
        StripSuffix(a, b, i + 1, inComment);
      }
    }
  }

  lemma NoDelimiterBefore(a: string, b: string, starting: bool)
    requires NoDelimiter(a, 0, |a|, starting) && DelimiterAt(b, 0, starting)
    ensures NoDelimiter(a + b, 0, |a|, starting)
  {
    forall i | 0 <= i < |a|
      ensures !DelimiterAt(a + b, i, starting)
    {
      assert !DelimiterAt(a, i, starting);
    }
  }

  /** Text without a delimiter is copied, or skipped, up to a delimiter d. */
  lemma StripPlain(a: string, d: string, b: string, inComment: bool)
    requires NoDelimiter(a, 0, |a|, !inComment) && DelimiterAt(d, 0, !inComment) && |d| == 2
    ensures Strip(a + (d + b), 0, inComment) == (if inComment then "" else a) + Strip(b, 0, !inComment)
  {
    var rest := d + b;
    assert DelimiterAt(rest, 0, !inComment);
    NoDelimiterBefore(a, rest, !inComment);
    StripUpTo(a + rest, 0, |a|, inComment);
    assert (a + rest)[0..|a|] == a;
    StripSuffix(a, rest, 0, inComment);
    StripSuffix(d, b, 0, !inComment);
  }

  lemma {:induction false} StripAll(a: string, inComment: bool)
    requires NoDelimiter(a, 0, |a|, !inComment)
    ensures Strip(a, 0, inComment) == if inComment then "" else a
  {
    StripUpTo(a, 0, |a|, inComment);
  }

  const OPEN := "/*"
  const CLOSE := "*/"

  /** A comment disappears, whatever it contains, and what follows is scanned as if it had not been
      there. */
  lemma CommentVanishes(a: string, comment: string, b: string)
    requires NoDelimiter(a, 0, |a|, true) && NoDelimiter(comment, 0, |comment|, false)
    ensures Strip(a + (OPEN + (comment + (CLOSE + b))), 0, false) == a + Strip(b, 0, false)
  {
    var rest := comment + (CLOSE + b);
    assert Strip(rest, 0, true) == Strip(b, 0, false) by {
      StripPlain(comment, CLOSE, b, true);
    }
    StripPlain(a, OPEN, rest, false);
  }

  /** A comment that is not closed drops the rest of the text. */
  lemma UnterminatedCommentDropsRest(a: string, comment: string)
    requires NoDelimiter(a, 0, |a|, true) && NoDelimiter(comment, 0, |comment|, false)
    ensures Strip(a + (OPEN + comment), 0, false) == a
  {
    StripPlain(a, OPEN, comment, false);
    StripAll(comment, true);
  }

  /** The star of an opening delimiter does not also close the comment. */
  lemma OpeningDoesNotClose(comment: string)
    requires comment != "" && comment[0] == '/' && NoDelimiter(comment, 0, |comment|, false)
    ensures Strip(OPEN + comment, 0, false) == ""
  {
    UnterminatedCommentDropsRest("", comment);
    assert OPEN + comment == "" + (OPEN + comment);
  }
}
