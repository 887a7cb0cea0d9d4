/** The entry points that print a whole value. */
module PrintApi {
  import opened Bytes
  import opened Json
  import opened PrintLayout
  import opened Render
  import opened Printer

  /** cJSON_PrintPreallocated: prints into the caller's buffer without allocating. It
      succeeds exactly when the length exceeds the text and its terminator by one byte
      and the nesting is in bounds, and then leaves the text there. */
  method PrintPreallocated(v: Json, buffer: array<byte>, length: int, format: bool) returns (ok: bool)
    requires IntegerNumbers(v)
    requires length == buffer.Length <= INT_MAX || length < 0
    modifies buffer
    ensures var t := if format then Laid(v, 0) else Dense(v);
            && (ok <==> |t| + 2 <= length && Nesting(v) <= 1000)
            && (ok ==> buffer[..|t| + 1] == Terminated(t))
  {
    PrintedText(v, format);
    if length < 0 {
      return false;
    }
    var p := new PrintBuffer(buffer, true, format, true, _ => false, 0);
    ok := p.PrintValue(v);
    if ok {
      assert [] + Terminated(Text(v, format, 0)) == Terminated(Text(v, format, 0));
    }
  }

  /** The first n requests are granted. */
  predicate Granted(grants: nat -> bool, n: nat) {
    forall k :: 0 <= k < n ==> grants(k)
  }

  /** The text can be printed at all. */
  predicate Printable(v: Json, format: bool) {
    Nesting(v) <= 1000 && |if format then Laid(v, 0) else Dense(v)| + 2 <= 2147483647
  }

  /** cJSON_Print and cJSON_PrintUnformatted: the text and its terminator, exactly when the
      allocator grants everything it is asked for and neither nesting nor size is out of
      bounds. The text does not depend on how the buffer is grown. */
  method Print(v: Json, format: bool, useRealloc: bool, grants: nat -> bool)
    returns (printed: array?<byte>, asked: nat)
    requires IntegerNumbers(v)
    ensures printed != null <==> Granted(grants, asked) && Printable(v, format)
    ensures printed != null ==> fresh(printed) && printed[..] == Terminated(if format then Laid(v, 0) else Dense(v))
  {
    PrintedText(v, format);
    if !grants(0) {
      return null, 1;
    }
    var storage := new byte[256];
    var p := new PrintBuffer(storage, false, format, useRealloc, grants, 1);
    var ok := p.PrintValue(v);
    if !ok {
      return null, p.asked;
    }
    p.UpdateOffset([], Text(v, format, 0));
    printed := Finish(p, Text(v, format, 0), useRealloc);
    asked := p.asked + 1;
  }

  /** The end of print: a block of just the right size. */
  method Finish(p: PrintBuffer, ghost t: cstr, useRealloc: bool) returns (printed: array?<byte>)
    requires p.Holds([], t) && p.offset == |t|
    ensures printed != null <==> p.grants(p.asked)
    ensures printed != null ==> fresh(printed) && printed[..] == Terminated(t)
  {
    if !p.grants(p.asked) {
      return null;
    }
    var size := p.offset + 1;
    var copied := if useRealloc || size < p.length then size else p.length;
    printed := new byte[size];
    forall i | 0 <= i < copied {
      printed[i] := p.buffer[i];
    }
    assert p.buffer[..size] == p.Front(|t| + 1) == Terminated(t);
    printed[p.offset] := 0;
  }

  /** cJSON_PrintBuffered: as Print, from an initial size the caller picks. */
  method PrintBuffered(v: Json, prebuffer: int, format: bool, useRealloc: bool, grants: nat -> bool)
    returns (printed: array?<byte>, asked: nat)
    requires IntegerNumbers(v) && prebuffer <= INT_MAX
    requires prebuffer != 0 || useRealloc
    ensures printed != null <==> prebuffer >= 0 && Granted(grants, asked) && Printable(v, format)
    ensures var t := if format then Laid(v, 0) else Dense(v);
            printed != null ==> |t| < printed.Length && printed[..|t| + 1] == Terminated(t)
  {
    PrintedText(v, format);
    if prebuffer < 0 {
      return null, 0;
    }
    if !grants(0) {
      return null, 1;
    }
    var storage := new byte[prebuffer];
    var p := new PrintBuffer(storage, false, format, useRealloc, grants, 1);
    var ok := p.PrintValue(v);
    asked := p.asked;
    if !ok {
      return null, asked;
    }
    assert [] + Terminated(Text(v, format, 0)) == Terminated(Text(v, format, 0));
    printed := p.buffer;
  }
}
