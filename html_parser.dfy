/**
 * The tokenizing loop of `HtmlParser::parse` (src/html_parser.rs).  The
 * source's `add_text` and `add_tag` are unimplemented; here they append a
 * `Token` to the output.
 */
module HtmlParser {
  import opened Node

  /** The loop's variables: tokens emitted, the pending buffer, inside a tag or not. */
  datatype ParseState = ParseState(output: seq<Token>, buffer: string, inTag: bool)

  const START: ParseState := ParseState([], [], false)

  /** One character: '<' flushes pending text, '>' emits the buffer as a tag, anything else is buffered. */
  function Step(st: ParseState, c: char): ParseState
  {
    if c == '<' then
      ParseState(if st.buffer != [] then st.output + [Text(st.buffer)] else st.output, [], true)
    else if c == '>' then
      ParseState(st.output + [Tag(st.buffer)], [], false)
    else
      st.(buffer := st.buffer + [c])
  }

  function Feed(st: ParseState, s: string): ParseState
    decreases |s|
  {
    if s == [] then st else Feed(Step(st, s[0]), s[1..])
  }

  /** After the loop: pending text is emitted only outside a tag. */
  function Finish(st: ParseState): seq<Token>
  {
    if !st.inTag && st.buffer != [] then st.output + [Text(st.buffer)] else st.output
  }

  /** The tokens `parse` emits for `body`. */
  function Tokenize(body: string): seq<Token>
  {
    Finish(Feed(START, body))
  }

  /** The text an unterminated final tag leaves behind, which is never emitted. */
  function Dropped(body: string): string
  {
    var st := Feed(START, body);
    if st.inTag then st.buffer else []
  }

  lemma {:induction false} FeedAppend(st: ParseState, s: string, t: string)
    ensures Feed(st, s + t) == Feed(Feed(st, s), t)
    decreases |s|
  {
    if s == [] {
      assert s + t == t;
    } else {
      assert (s + t)[1..] == s[1..] + t;
      FeedAppend(Step(st, s[0]), s[1..], t);
    }
  }

  lemma FeedSnoc(st: ParseState, s: string, c: char)
    ensures Feed(st, s + [c]) == Step(Feed(st, s), c)
  {
    FeedAppend(st, s, [c]);
  }

  /** The source's `while let` loop over the characters of the body. */
  method Parse(body: string) returns (output: seq<Token>)
    ensures output == Tokenize(body)
  {
    output := [];
    var buffer: string := [];
    var inTag := false;
    var i := 0;
    while i < |body|
      invariant 0 <= i <= |body|
      invariant ParseState(output, buffer, inTag) == Feed(START, body[..i])
    {
      var c := body[i];
      if c == '<' {
        inTag := true;
        if buffer != [] {
          output := output + [Text(buffer)];
        }
        buffer := [];
      } else if c == '>' {
        inTag := false;
        output := output + [Tag(buffer)];
        buffer := [];
      } else {
        buffer := buffer + [c];
      }
      FeedSnoc(START, body[..i], c);
      assert body[..i + 1] == body[..i] + [c];
      i := i + 1;
    }
    assert body[..i] == body;
    if !inTag && buffer != [] {
      output := output + [Text(buffer)];
    }
  }

  /** What the scanner keeps clean: no bracket in a token or the buffer, no empty text token. */
  ghost predicate Clean(st: ParseState)
  {
    && '<' !in st.buffer && '>' !in st.buffer
    && (forall k :: 0 <= k < |st.output| ==> '<' !in Content(st.output[k]) && '>' !in Content(st.output[k]))
    && (forall k :: 0 <= k < |st.output| && st.output[k].Text? ==> st.output[k].text != [])
  }

  lemma {:induction false} FeedKeepsClean(st: ParseState, s: string)
    requires Clean(st)
    ensures Clean(Feed(st, s))
    decreases |s|
  {
    if s != [] {
      FeedKeepsClean(Step(st, s[0]), s[1..]);
    }
  }

  /** No token contains '<' or '>', and no text token is empty. */
  lemma TokensAreClean(body: string)
    ensures forall t :: t in Tokenize(body) ==> '<' !in Content(t) && '>' !in Content(t)
    ensures forall t :: t in Tokenize(body) && t.Text? ==> t.text != []
  {
    FeedKeepsClean(START, body);
  }

  /** What is left of one character once brackets are deleted. */
  function Kept(c: char): string
  {
    if c == '<' || c == '>' then [] else [c]
  }

  /** `s` with every '<' and '>' deleted. */
  function WithoutBrackets(s: string): (r: string)
    ensures '<' !in r && '>' !in r
    ensures |r| <= |s|
  {
    if s == [] then [] else Kept(s[0]) + WithoutBrackets(s[1..])
  }

  lemma StepKeepsText(st: ParseState, c: char)
    ensures Contents(Step(st, c).output) + Step(st, c).buffer
         == Contents(st.output) + st.buffer + Kept(c)
  {
    var st' := Step(st, c);
    if c == '<' && st.buffer != [] {
      assert st'.output[..|st'.output| - 1] == st.output;
    } else if c == '>' {
      assert st'.output[..|st'.output| - 1] == st.output;
    }
  }

  lemma {:induction false} FeedKeepsText(st: ParseState, s: string)
    ensures Contents(Feed(st, s).output) + Feed(st, s).buffer
         == Contents(st.output) + st.buffer + WithoutBrackets(s)
    decreases |s|
  {
    if s != [] {
      var st' := Step(st, s[0]);
      StepKeepsText(st, s[0]);
      FeedKeepsText(st', s[1..]);
      assert Feed(st, s) == Feed(st', s[1..]);
      assert WithoutBrackets(s) == Kept(s[0]) + WithoutBrackets(s[1..]);
    }
  }

  /**
   * Nothing but brackets is lost: the token contents, followed by what an
   * unterminated final tag left behind, spell the input without '<' and '>'.
   */
  lemma TokensSpellInput(body: string)
    ensures Contents(Tokenize(body)) + Dropped(body) == WithoutBrackets(body)
  {
    FeedKeepsText(START, body);
    var st := Feed(START, body);
    assert Contents(st.output) + st.buffer == WithoutBrackets(body);
    if st.inTag {
      assert Tokenize(body) == st.output && Dropped(body) == st.buffer;
    } else if st.buffer != [] {
      var out := st.output + [Text(st.buffer)];
      assert Tokenize(body) == out && Dropped(body) == [];
      assert out[..|out| - 1] == st.output;
      assert Contents(out) == Contents(st.output) + st.buffer;
    } else {
      assert Tokenize(body) == st.output && Dropped(body) == [];
    }
  }

  /** Text without brackets only grows the buffer. */
  lemma {:induction false} FeedPlain(st: ParseState, t: string)
    requires '<' !in t && '>' !in t
    ensures Feed(st, t) == st.(buffer := st.buffer + t)
    decreases |t|
  {
    if t != [] {
      assert t[0] in t && forall c :: c in t[1..] ==> c in t;
      FeedPlain(Step(st, t[0]), t[1..]);
      assert t == [t[0]] + t[1..];
    }
  }

  /** Outside a tag, text without '<' never enters one. */
  lemma {:induction false} FeedStaysOutside(st: ParseState, t: string)
    requires !st.inTag && '<' !in t
    ensures !Feed(st, t).inTag
    decreases |t|
  {
    if t != [] {
      assert t[0] in t && forall c :: c in t[1..] ==> c in t;
      FeedStaysOutside(Step(st, t[0]), t[1..]);
    }
  }

  /** The scanner never takes back a token. */
  lemma {:induction false} FeedOutputGrows(st: ParseState, s: string)
    ensures st.output <= Feed(st, s).output
    decreases |s|
  {
    if s != [] {
      FeedOutputGrows(Step(st, s[0]), s[1..]);
    }
  }

  /** Whatever follows, the tokens emitted while reading `s` begin the token list. */
  lemma TokensExtend(s: string, rest: string)
    ensures Feed(START, s).output <= Tokenize(s + rest)
  {
    FeedAppend(START, s, rest);
    FeedOutputGrows(Feed(START, s), rest);
  }

  /** Right after a bracket, or at the start, nothing is pending. */
  lemma BufferEmptyAfterBracket(p: string)
    requires p == [] || p[|p| - 1] == '<' || p[|p| - 1] == '>'
    ensures Feed(START, p).buffer == []
  {
    if p != [] {
      FeedSnoc(START, p[..|p| - 1], p[|p| - 1]);
      assert p[..|p| - 1] + [p[|p| - 1]] == p;
    }
  }

  /**
   * A '<' emits the bracket-free text read since the last bracket as a text
   * token, whether that text lay inside a tag or outside one.
   */
  lemma OpenEmitsPendingText(p: string, t: string, rest: string)
    requires p == [] || p[|p| - 1] == '<' || p[|p| - 1] == '>'
    requires t != [] && '<' !in t && '>' !in t
    ensures Feed(START, p).output + [Text(t)] <= Tokenize(p + t + "<" + rest)
  {
    var st := Feed(START, p);
    BufferEmptyAfterBracket(p);
    FeedAppend(START, p, t);
    FeedPlain(st, t);
    assert st.buffer + t == t;
    FeedSnoc(START, p + t, '<');
    TokensExtend(p + t + "<", rest);
  }

  /**
   * Every '>' emits a tag holding the bracket-free text read since the last
   * bracket: also an empty tag, and also a '>' with no '<' before it.
   */
  lemma CloseAlwaysEmitsTag(p: string, t: string, rest: string)
    requires p == [] || p[|p| - 1] == '<' || p[|p| - 1] == '>'
    requires '<' !in t && '>' !in t
    ensures Feed(START, p).output + [Tag(t)] <= Tokenize(p + t + ">" + rest)
  {
    var st := Feed(START, p);
    BufferEmptyAfterBracket(p);
    FeedAppend(START, p, t);
    FeedPlain(st, t);
    assert st.buffer + t == t;
    FeedSnoc(START, p + t, '>');
    TokensExtend(p + t + ">", rest);
  }

  /** An unterminated final tag is never emitted: the text after the last '<' is dropped. */
  lemma UnclosedTailDropped(p: string, t: string)
    requires '<' !in t && '>' !in t
    ensures Dropped(p + "<" + t) == t
  {
    FeedAppend(START, p + "<", t);
    FeedSnoc(START, p, '<');
    FeedPlain(Feed(START, p + "<"), t);
  }

  /** Once the last '<' is closed, or when there is none, nothing is dropped. */
  lemma NothingDroppedOutsideTag(p: string, t: string)
    requires '<' !in t
    ensures Dropped(p + ">" + t) == []
    ensures Dropped(t) == []
  {
    FeedAppend(START, p + ">", t);
    FeedSnoc(START, p, '>');
    FeedStaysOutside(Feed(START, p + ">"), t);
    FeedStaysOutside(START, t);
  }

  /** The number of times `c` occurs in `s`. */
  function Occurrences(s: string, c: char): nat
  {
    if s == [] then 0 else (if s[0] == c then 1 else 0) + Occurrences(s[1..], c)
  }

  /** The number of tag tokens in `ts`. */
  function TagCount(ts: seq<Token>): nat
  {
    if ts == [] then 0 else TagCount(ts[..|ts| - 1]) + (if ts[|ts| - 1].Tag? then 1 else 0)
  }

  lemma {:induction false} FeedCountsTags(st: ParseState, s: string)
    ensures TagCount(Feed(st, s).output) == TagCount(st.output) + Occurrences(s, '>')
    decreases |s|
  {
    if s != [] {
      var st' := Step(st, s[0]);
      if st'.output != st.output {
        assert st'.output[..|st'.output| - 1] == st.output;
      }
      FeedCountsTags(st', s[1..]);
    }
  }

  /** Exactly one tag token per '>' in the body. */
  lemma TagsCountCloses(body: string)
    ensures TagCount(Tokenize(body)) == Occurrences(body, '>')
  {
    FeedCountsTags(START, body);
    var st := Feed(START, body);
    var out := Tokenize(body);
    if out != st.output {
      assert out[..|out| - 1] == st.output;
    }
  }
}
