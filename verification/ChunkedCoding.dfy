/** Chunked transfer coding, section 7.1 of RFC 9112: what http_write_chunk puts on the wire,
    and a recipient that takes the wire one byte at a time.

    A byte on the wire is a `char`; no proof uses an upper bound on it, so every result holds for
    all 256 byte values. */
module ChunkedCoding {
  import opened Numerals

  const CRLF := "\r\n"

  /** One chunk as the sender writes it: size line, data, CRLF. */
  function Chunk(data: string): string {
    Hex(|data|) + CRLF + data + CRLF
  }

  /** Where in the coding a recipient stands. */
  datatype ChunkPhase =
    | Size(size: nat, digits: nat)  // inside chunk-size
    | Extension(size: nat)          // inside chunk-ext, which is ignored
    | SizeLF(size: nat)             // the CR of the size line was read
    | Data(left: nat)               // `left` bytes of chunk-data to come
    | DataCR                        // chunk-data is complete
    | DataLF
    | Last                          // the zero-length last-chunk was read: the body has ended
    | Malformed

  datatype Dechunker = Dechunker(phase: ChunkPhase, body: string)

  const FRESH := Dechunker(Size(0, 0), "")

  function NextPhase(p: ChunkPhase, c: char): ChunkPhase {
    match p
    case Size(n, k) =>
      if HexDigit(c).Some? then Size(16 * n + HexDigit(c).value, k + 1)
      else if k == 0 then Malformed
      else if c == '\r' then SizeLF(n)
      else if c == ';' then Extension(n)
      else Malformed
    case Extension(n) => if c == '\r' then SizeLF(n) else p
    case SizeLF(n) => if c != '\n' then Malformed else if n == 0 then Last else Data(n)
    case Data(n) => if n <= 1 then DataCR else Data(n - 1)
    case DataCR => if c == '\r' then DataLF else Malformed
    case DataLF => if c == '\n' then Size(0, 0) else Malformed
    case Last => Last
    case Malformed => Malformed
  }

  function TakeByte(d: Dechunker, c: char): Dechunker {
    Dechunker(NextPhase(d.phase, c), if d.phase.Data? then d.body + [c] else d.body)
  }

  /** The recipient after reading `wire` from state `d`. */
  function DechunkFrom(d: Dechunker, wire: string): Dechunker {
    if wire == "" then d
    else TakeByte(DechunkFrom(d, wire[..|wire| - 1]), wire[|wire| - 1])
  }

  function Dechunk(wire: string): Dechunker { DechunkFrom(FRESH, wire) }

  /** A recipient that still expects body bytes. */
  predicate Open(d: Dechunker) { !d.phase.Last? && !d.phase.Malformed? }

  lemma {:induction false} DechunkConcat(d: Dechunker, a: string, b: string)
    ensures DechunkFrom(d, a + b) == DechunkFrom(DechunkFrom(d, a), b)
  {
    if b == "" {
      assert a + b == a;
    } else {
      DechunkConcat(d, a, b[..|b| - 1]);
      assert (a + b)[..|a + b| - 1] == a + b[..|b| - 1];
    }
  }

  /** Reading on never takes back body bytes, and a body that has ended or is malformed stays so. */
  lemma {:induction false} DechunkMonotone(d: Dechunker, more: string)
    ensures d.body <= DechunkFrom(d, more).body
    ensures Open(DechunkFrom(d, more)) ==> Open(d)
  {
    if more != "" { DechunkMonotone(d, more[..|more| - 1]); }
  }

  lemma {:induction false} ReadSize(n: nat, body: string)
    ensures DechunkFrom(Dechunker(Size(0, 0), body), Hex(n)) == Dechunker(Size(n, |Hex(n)|), body)
  {
    var start := Dechunker(Size(0, 0), body);
    if n < 16 {
      assert Hex(n)[..0] == "" && DechunkFrom(start, "") == start;
    } else {
      ReadSize(n / 16, body);
      assert Hex(n)[..|Hex(n)| - 1] == Hex(n / 16);
    }
  }

  lemma {:induction false} ReadData(n: nat, body: string, data: string)
    requires |data| <= n && 0 < n
    ensures DechunkFrom(Dechunker(Data(n), body), data)
         == Dechunker(if |data| == n then DataCR else Data(n - |data|), body + data)
  {
    if data == "" {
      assert body + data == body;
    } else {
      ReadData(n, body, data[..|data| - 1]);
      assert body + data == body + data[..|data| - 1] + [data[|data| - 1]];
    }
  }

  lemma ReadCRLF(d: Dechunker)
    ensures DechunkFrom(d, CRLF) == TakeByte(TakeByte(d, '\r'), '\n')
  {
    assert CRLF[..1] == "\r" && CRLF[..1][..0] == "";
    assert DechunkFrom(d, "\r") == TakeByte(DechunkFrom(d, ""), '\r');
  }

  /** The size line announces the data that follows, or ends the body. */
  lemma ReadSizeLine(n: nat, body: string)
    ensures DechunkFrom(Dechunker(Size(0, 0), body), Hex(n) + CRLF)
         == Dechunker(if n == 0 then Last else Data(n), body)
  {
    ReadSize(n, body);
    DechunkConcat(Dechunker(Size(0, 0), body), Hex(n), CRLF);
    ReadCRLF(Dechunker(Size(n, |Hex(n)|), body));
  }

  /** A whole chunk delivers its data; an empty one is the last-chunk that ends the body. */
  lemma ReadChunk(body: string, data: string)
    ensures DechunkFrom(Dechunker(Size(0, 0), body), Chunk(data))
         == Dechunker(if data == "" then Last else Size(0, 0), body + data)
  {
    var d0 := Dechunker(Size(0, 0), body);
    var line := Hex(|data|) + CRLF;
    ReadSizeLine(|data|, body);
    DechunkConcat(d0, line, data);
    DechunkConcat(d0, line + data, CRLF);
    if data == "" {
      assert body + data == body;
      ReadCRLF(Dechunker(Last, body));
    } else {
      ReadData(|data|, body, data);
      ReadCRLF(Dechunker(DataCR, body + data));
    }
  }
}
