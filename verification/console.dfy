/** The last line of `handleConnection` in `tcpinput2` and `tcpinput3`:
    `print("\nEvent:\n", logEventJSON)`. Go's builtin `print` does not show the contents
    of a byte slice. It writes the slice header, `[len/cap]0xaddr`: the length and
    capacity in decimal, then the address of the backing array in hexadecimal. The JSON
    of the rebuilt event therefore never reaches the output; only its length does. The
    capacity and the address are whatever the allocator chose, so they are parameters. */
module Console {
  import opened Decimal

  /** The label printed in front of the event. */
  const Label := "\nEvent:\n"

  function HexDigit(d: nat): (c: char)
    requires d < 16
  {
    if d < 10 then DigitChar(d) else ('a' as int + (d - 10)) as char
  }

  /** How the runtime writes a pointer: `0x` and lower-case hexadecimal digits. */
  function Hex(n: nat): (s: string)
    ensures |s| > 0
    decreases n
  {
    if n < 16 then [HexDigit(n)] else Hex(n / 16) + [HexDigit(n % 16)]
  }

  /** The builtin `print` of a byte slice of length `len`, capacity `cap`, backing array
      at `addr`. */
  function SliceHeader(len: nat, cap: nat, addr: nat): string {
    "[" + Itoa(len) + "/" + Itoa(cap) + "]0x" + Hex(addr)
  }

  /** What the last line writes, as written: the label, then the header of the slice
      holding `json`. Each character of `json` stands for one byte of the encoding
      (text outside ASCII is passed as its UTF-8 bytes), so `|json|` is the byte length
      the header prints. */
  function EventLineAsWritten(json: string, cap: nat, addr: nat): (out: string)
    requires |json| <= cap
    ensures |Label| < |out| && out[..|Label|] == Label
    ensures out[|Label|] == '['
  {
    Label + SliceHeader(|json|, cap, addr)
  }

  /** As written, the line depends on the JSON only through its length: any two
      encodings of the same length print the same text, wherever the slice lives. */
  lemma AsWrittenShowsOnlyLength(a: string, b: string, cap: nat, addr: nat)
    requires |a| == |b| <= cap
    ensures EventLineAsWritten(a, cap, addr) == EventLineAsWritten(b, cap, addr)
  {
  }

  /** For instance, two events that differ only in their time print the same line. */
  lemma AsWrittenLosesEvent(cap: nat, addr: nat)
    requires cap >= 12
    ensures var a := "{\"time\":\"1\"}";
      var b := "{\"time\":\"2\"}";
      a != b && EventLineAsWritten(a, cap, addr) == EventLineAsWritten(b, cap, addr)
  {
    var a := "{\"time\":\"1\"}";
    var b := "{\"time\":\"2\"}";
    assert a[9] != b[9];
    assert |a| == |b| == 12;
    AsWrittenShowsOnlyLength(a, b, cap, addr);
  }

  /** What the line evidently means to write: the label, then the JSON text itself
      (`string(logEventJSON)`, as the loop's `fmt.Println("Event:", bla)` does). */
  function EventLine(json: string): (out: string)
    ensures |out| == |Label| + |json|
    ensures out[..|Label|] == Label && out[|Label|..] == json
  {
    Label + json
  }

  /** The intended line shows the whole encoding: different encodings print differently,
      so the printed text determines the rebuilt event's JSON. */
  lemma EventLineShowsEvent(a: string, b: string)
    requires EventLine(a) == EventLine(b)
    ensures a == b
  {
    assert a == EventLine(a)[|Label|..];
  }
}
