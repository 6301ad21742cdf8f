/** The token vocabulary of src/node.rs: what the HTML tokenizer emits. */
module Node {

  /** `Token::Tag(Tag { tag })` or `Token::Text(Text { text })`. */
  datatype Token = Tag(tag: string) | Text(text: string)

  /** The characters a token carries, whichever kind it is. */
  function Content(t: Token): string
  {
    match t
    case Tag(s) => s
    case Text(s) => s
  }

  /** All token contents, concatenated in order. */
  function Contents(ts: seq<Token>): string
  {
    if ts == [] then [] else Contents(ts[..|ts| - 1]) + Content(ts[|ts| - 1])
  }
}
