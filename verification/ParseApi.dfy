/** The entry points that parse a whole text. */
module ParseApi {
  import opened Bytes
  import opened Json
  import opened JsonGrammar
  import opened ParseSpec
  import opened Parser

  /** cJSON_ParseWithLengthOpts: the value and where the parse ended, or the position of
      the error. */
  method ParseText(content: seq<byte>, requireTerminated: bool) returns (ok: bool, item: Json, end: nat)
    ensures ParseSpec.ParseText(content, requireTerminated) == if ok then Ok(item, end) else Err(end)
  {
    if content == [] {
      return false, Null, 0;
    }
    var buffer := new ParseBuffer(content);
    if 4 < |content| && At(content, 0, BOM) {
      buffer.offset := buffer.offset + 3;
    }
    buffer.SkipWhitespace();
    ok, item := buffer.ParseValue();
    if ok && requireTerminated {
      buffer.SkipWhitespace();
      ok := buffer.offset < |content| && content[buffer.offset] == 0;
    }
    end := if ok then buffer.offset else ErrorPosition(content, buffer.offset);
  }

  /** cJSON_Parse of a C string: its terminator belongs to the buffer. It is accepted exactly when
      a text of the grammar stands there, and only as the value of that text. */
  method Parse(text: cstr) returns (ok: bool, item: Json)
    ensures ok <==> ParseSpec.ParseText(Terminated(text), false).Ok?
    ensures ok ==> item == ParseSpec.ParseText(Terminated(text), false).value
    ensures forall n: nat, v: Json :: TextAt(Terminated(text), n, v, false) ==> ok && item == v
    ensures ok ==> exists n: nat :: TextAt(Terminated(text), n, item, false)
  {
    var end;
    ok, item, end := ParseText(Terminated(text), false);
    forall n: nat, v: Json
      ensures ParseSpec.ParseText(Terminated(text), false) == Ok(v, n)
          <==> TextAt(Terminated(text), n, v, false)
    {
      TextsAreRead(Terminated(text), n, v);
    }
  }
}
