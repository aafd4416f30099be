/**
  The token source that the list deserializer pulls from, reduced to what the element loop
  observes: one slot per array element, followed by the array's end marker.
 */
module JsonParser {
  import opened Wrappers

  /** One token as the element loop classifies it. A `Value` slot stands for every token that
      opens an element other than a JSON null (a scalar, an object or a nested array); its
      payload is whatever the value deserializer reads for that element. */
  datatype Token<+P> = EndArray | ValueNull | Value(payload: P)

  /** A parser over a finite token sequence; `pos` is the index of the next token to hand out. */
  class Parser<P> {
    const tokens: seq<Token<P>>
    var pos: nat

    ghost predicate Valid()
      reads this
    {
      pos <= |tokens|
    }

    /** The tokens not yet handed out. */
    function Remaining(): (rest: seq<Token<P>>)
      reads this
      requires Valid()
      ensures |rest| == |tokens| - pos
    {
      tokens[pos..]
    }

    constructor (tokens: seq<Token<P>>)
      ensures Valid() && this.tokens == tokens && pos == 0
    {
      this.tokens := tokens;
      pos := 0;
    }

    /** Advances to the next token and returns it; at end of input it returns `None`
        (Java's null token) and the position stays where it is. */
    method NextToken() returns (t: Option<Token<P>>)
      requires Valid()
      modifies this
      ensures Valid()
      ensures old(pos) < |tokens| ==> t == Some(tokens[old(pos)]) && pos == old(pos) + 1
      ensures old(pos) == |tokens| ==> t == None && pos == old(pos)
    {
      if pos < |tokens| {
        t := Some(tokens[pos]);
        pos := pos + 1;
      } else {
        t := None;
      }
    }
  }
}
