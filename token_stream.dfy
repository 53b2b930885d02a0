/** The part of pdjson's `json_stream` that parse_json_value of json/json.c relies on:
    json_next, json_peek, json_get_string and json_get_error. The tokenizer itself is not
    modelled: a stream is the sequence of tokens it would produce for the input text, and a
    read past the last token is an error, as a truncated document is for pdjson. */
module TokenStreams {
  import opened CStrings
  import opened JsonTree

  /** One token as pdjson reports it: its kind, and the bytes json_get_string returns for
      it, whose count includes the NUL that ends the string. */
  datatype Token = Token(kind: JsonType, data: seq<byte>)

  /** The state of a stream: the position of the next token, the error flag (once set, it
      stays set and every read yields JSON_ERROR) and the string of the token read last. */
  datatype Cursor = Cursor(pos: nat, error: bool, text: seq<byte>)

  /** The token at a position; past the end, an error. */
  function TokenAt(ts: seq<Token>, pos: nat): (t: Token)
    ensures pos >= |ts| ==> t.kind == Error
  {
    if pos < |ts| then ts[pos] else Token(Error, [])
  }

  /** How much is left to read: nothing once the error flag is set. */
  function Measure(ts: seq<Token>, c: Cursor): nat {
    if c.error then 0 else if c.pos >= |ts| then 1 else |ts| + 1 - c.pos
  }

  /** json_next: with the error flag set, JSON_ERROR and no change; otherwise the next
      token, which becomes the current string; an error token sets the flag instead of
      being consumed. */
  function NextOf(ts: seq<Token>, c: Cursor): (r: (JsonType, Cursor))
    ensures c.error ==> r == (Error, c)
    ensures !c.error ==> r.1.text == TokenAt(ts, c.pos).data && r.0 == TokenAt(ts, c.pos).kind
    ensures r.1.error <==> r.0 == Error
    ensures !c.error ==> Measure(ts, r.1) < Measure(ts, c)
  {
    if c.error then (Error, c)
    else
      var t := TokenAt(ts, c.pos);
      if t.kind == Error then (Error, Cursor(c.pos, true, t.data))
      else (t.kind, Cursor(c.pos + 1, false, t.data))
  }

  /** json_peek: the kind of the next token without consuming it. pdjson reads the token
      to learn its kind, so its string becomes the current one and an error token sets the
      flag. */
  function PeekOf(ts: seq<Token>, c: Cursor): (r: (JsonType, Cursor))
    ensures c.error ==> r == (Error, c)
    ensures !c.error ==> r.0 == TokenAt(ts, c.pos).kind && r.1.pos == c.pos
    ensures r.1.error <==> r.0 == Error
    ensures Measure(ts, r.1) <= Measure(ts, c)
  {
    if c.error then (Error, c)
    else
      var t := TokenAt(ts, c.pos);
      (t.kind, Cursor(c.pos, t.kind == Error, t.data))
  }

  /** A `json_stream` opened on a document. */
  class TokenStream {
    const tokens: seq<Token>
    var pos: nat
    var error: bool
    var text: seq<byte>

    function State(): Cursor
      reads this
    {
      Cursor(pos, error, text)
    }

    /** json_open_string: positioned before the first token, no error. */
    constructor (ts: seq<Token>)
      ensures tokens == ts && State() == Cursor(0, false, [])
    {
      tokens := ts;
      pos := 0;
      error := false;
      text := [];
    }

    /** json_next. */
    method Next() returns (k: JsonType)
      modifies this
      ensures (k, State()) == NextOf(tokens, old(State()))
    {
      if error {
        return Error;
      }
      var t := TokenAt(tokens, pos);
      text := t.data;
      if t.kind == Error {
        error := true;
      } else {
        pos := pos + 1;
      }
      k := t.kind;
    }

    /** json_peek. */
    method Peek() returns (k: JsonType)
      modifies this
      ensures (k, State()) == PeekOf(tokens, old(State()))
    {
      if error {
        return Error;
      }
      var t := TokenAt(tokens, pos);
      text := t.data;
      error := t.kind == Error;
      k := t.kind;
    }
  }
}
