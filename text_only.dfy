/**
 * `show_text_without_tags` (src/main.rs): a two-state scanner that prints
 * every character outside `<`...`>` and then a newline.  The printed
 * characters are returned as a string.
 */
module TextOnly {

  /** The scanner's state: inside a tag or not, and what has been printed so far. */
  datatype Scan = Scan(inTag: bool, printed: string)

  const START: Scan := Scan(false, [])

  /** One character of the scan. */
  function Step(st: Scan, c: char): Scan
  {
    if c == '<' then st.(inTag := true)
    else if c == '>' then st.(inTag := false)
    else if !st.inTag then st.(printed := st.printed + [c])
    else st
  }

  /** The scan from `st` over all of `s`. */
  function Feed(st: Scan, s: string): Scan
    decreases |s|
  {
    if s == [] then st else Feed(Step(st, s[0]), s[1..])
  }

  /** The characters printed for `body`, before the final newline. */
  function Visible(body: string): string
  {
    Feed(START, body).printed
  }

  lemma {:induction false} FeedAppend(st: Scan, s: string, t: string)
    ensures Feed(st, s + t) == Feed(Feed(st, s), t)
    decreases |s|
  {
    if s == [] {
      assert s + t == t;
    } else {
      assert (s + t)[1..] == s[1..] + t;
      FeedAppend(Step(st, s[0]), s[1..], t);
    }
  }

  lemma FeedSnoc(st: Scan, s: string, c: char)
    ensures Feed(st, s + [c]) == Step(Feed(st, s), c)
  {
    FeedAppend(st, s, [c]);
  }

  /** The source's loop, printing into a string. */
  method ShowTextWithoutTags(body: string) returns (output: string)
    ensures output == Visible(body) + "\n"
  {
    var inTag := false;
    output := [];
    var i := 0;
    while i < |body|
      invariant 0 <= i <= |body|
      invariant Scan(inTag, output) == Feed(START, body[..i])
    {
      var c := body[i];
      if c == '<' {
        inTag := true;
      } else if c == '>' {
        inTag := false;
      } else if !inTag {
        output := output + [c];
      }
      FeedSnoc(START, body[..i], c);
      assert body[..i + 1] == body[..i] + [c];
      i := i + 1;
    }
    assert body[..i] == body;
    output := output + "\n";
  }

  /** What is printed from a state is what was printed already, followed by what the rest prints. */
  lemma {:induction false} PrintedExtends(st: Scan, s: string)
    ensures Feed(st, s).printed == st.printed + Feed(Scan(st.inTag, []), s).printed
    ensures Feed(st, s).inTag == Feed(Scan(st.inTag, []), s).inTag
    decreases |s|
  {
    if s != [] {
      var st' := Step(st, s[0]);
      var fresh' := Step(Scan(st.inTag, []), s[0]);
      PrintedExtends(st', s[1..]);
      PrintedExtends(fresh', s[1..]);
      assert st'.printed == st.printed + fresh'.printed;
    }
  }

  /** A subsequence: `a` is `b` with some characters deleted, order kept. */
  ghost predicate IsSubsequence(a: string, b: string)
    decreases |b|
  {
    a == [] ||
    (b != [] &&
     (IsSubsequence(a, b[..|b| - 1]) ||
      (a[|a| - 1] == b[|b| - 1] && IsSubsequence(a[..|a| - 1], b[..|b| - 1]))))
  }

  lemma {:induction false} SubsequenceGrows(a: string, b: string, c: char)
    requires IsSubsequence(a, b)
    ensures IsSubsequence(a, b + [c]) && IsSubsequence(a + [c], b + [c])
  {
    assert (b + [c])[..|b + [c]| - 1] == b;
    assert (a + [c])[..|a + [c]| - 1] == a;
  }

  /** The printed text is the input with characters deleted, in original order. */
  lemma {:induction false} VisibleIsSubsequence(body: string)
    ensures IsSubsequence(Visible(body), body)
    decreases |body|
  {
    if body == [] {
    } else {
      var init, c := body[..|body| - 1], body[|body| - 1];
      assert body == init + [c];
      VisibleIsSubsequence(init);
      FeedSnoc(START, init, c);
      SubsequenceGrows(Visible(init), init, c);
    }
  }

  /** Neither bracket is ever printed. */
  lemma {:induction false} VisibleHasNoBrackets(body: string)
    ensures '<' !in Visible(body) && '>' !in Visible(body)
    decreases |body|
  {
    if body != [] {
      var init, c := body[..|body| - 1], body[|body| - 1];
      assert body == init + [c];
      VisibleHasNoBrackets(init);
      FeedSnoc(START, init, c);
    }
  }

  /** Text without brackets is printed unchanged. */
  lemma {:induction false} PlainTextUnchanged(body: string)
    requires '<' !in body && '>' !in body
    ensures Visible(body) == body && !Feed(START, body).inTag
    decreases |body|
  {
    if body != [] {
      var init, c := body[..|body| - 1], body[|body| - 1];
      assert body == init + [c];
      PlainTextUnchanged(init);
      FeedSnoc(START, init, c);
    }
  }

  /** Inside a tag, text without '>' changes nothing. */
  lemma {:induction false} TagAbsorbs(st: Scan, s: string)
    requires st.inTag && '>' !in s
    ensures Feed(st, s) == st
    decreases |s|
  {
    if s != [] {
      TagAbsorbs(Step(st, s[0]), s[1..]);
    }
  }

  /** After a '<' that is never closed, nothing more is printed. */
  lemma UnclosedTagHidesRest(before: string, after: string)
    requires '>' !in after
    ensures Visible(before + "<" + after) == Visible(before)
  {
    FeedAppend(START, before + "<", after);
    FeedAppend(START, before, "<");
    TagAbsorbs(Feed(START, before + "<"), after);
  }

  /**
   * What lies between a '<' and the next '>' is not printed: the result is
   * what precedes the tag followed by what follows it.
   */
  lemma TagContentHidden(before: string, inside: string, after: string)
    requires '>' !in inside
    ensures Visible(before + "<" + inside + ">" + after) == Visible(before) + Visible(after)
  {
    var s0 := Feed(START, before);
    var s1 := Feed(s0, "<");
    FeedAppend(START, before, "<");
    FeedAppend(START, before + "<", inside);
    TagAbsorbs(s1, inside);
    FeedAppend(START, before + "<" + inside, ">");
    var s2 := Feed(START, before + "<" + inside + ">");
    assert s2 == Scan(false, s0.printed);
    FeedAppend(START, before + "<" + inside + ">", after);
    PrintedExtends(s2, after);
  }

  /** A '>' outside any tag is dropped and leaves the scanner's state as it was. */
  lemma StrayCloseIgnored(before: string, after: string)
    requires !Feed(START, before).inTag
    ensures Visible(before + ">" + after) == Visible(before + after)
  {
    FeedAppend(START, before, ">");
    FeedAppend(START, before + ">", after);
    FeedAppend(START, before, after);
    assert Feed(START, before + ">") == Feed(START, before);
  }
}
