/** Reading the input file in chunks (`readFileByChunk` of Gaijer/main.go and
    of main.go, which are the same): an opened file, the `bufio.Reader`
    placed in front of it, and the chunk read itself. What `Read` copies
    into the caller's buffer is modelled in place, on arrays. */
module Reader {
  import opened Base
  import opened Bytes

  function Min(a: int, b: int): int
  {
    if a < b then a else b
  }

  /** An opened `*os.File`: its contents and the read offset. `failure` is
      what a read at the end reports: nothing for `io.EOF`, or the device
      error that ends the file instead. */
  class File {
    const data: seq<Byte>
    const failure: Option<Error>
    var pos: nat

    predicate Valid()
      reads this
    {
      pos <= |data|
    }

    /** The bytes not yet read. */
    function Rest(): seq<Byte>
      reads this
      requires Valid()
    {
      data[pos..]
    }

    function EndError(): Error
    {
      if failure.Some? then failure.value else Eof
    }

    constructor(data: seq<Byte>, failure: Option<Error>)
      ensures this.data == data && this.failure == failure && pos == 0 && Valid()
    {
      this.data := data;
      this.failure := failure;
      pos := 0;
    }

    /** `(*os.File).Read`: an empty buffer reads nothing; at the end of the
        file the read fails with the end error; otherwise as many bytes as
        fit and remain are copied to the front of `p`. */
    method Read(p: array<Byte>) returns (n: nat, err: Option<Error>)
      requires Valid()
      modifies this, p
      ensures Valid() && n <= p.Length
      ensures n == (if p.Length == 0 then 0 else Min(p.Length, |old(Rest())|))
      ensures err == (if p.Length > 0 && old(Rest()) == [] then Some(EndError()) else None)
      ensures p[..n] == old(Rest())[..n] && Rest() == old(Rest())[n..]
      ensures forall j :: n <= j < p.Length ==> p[j] == old(p[j])
    {
      if p.Length == 0 {
        return 0, None;
      }
      if pos == |data| {
        return 0, Some(EndError());
      }
      n := Min(p.Length, |data| - pos);
      for k := 0 to n
        modifies p
        invariant p[..k] == data[pos..pos + k]
        invariant forall j :: k <= j < p.Length ==> p[j] == old(p[j])
      {
        p[k] := data[pos + k];
      }
      pos := pos + n;
      return n, None;
    }
  }

  /** A `bufio.Reader` of the given size in front of a file: `buf` holds what
      it has taken from the file and not yet handed out. */
  class BufReader {
    const rd: File
    const size: nat
    var buf: seq<Byte>

    predicate Valid()
      reads this, rd
    {
      rd.Valid() && 16 <= size
    }

    /** Everything still to be read through this reader: its buffer, then the
        rest of the file. */
    function Stream(): seq<Byte>
      reads this, rd
      requires Valid()
    {
      buf + rd.Rest()
    }

    /** `bufio.NewReaderSize`: sizes below 16 are raised to 16. */
    constructor(rd: File, size: int)
      requires rd.Valid()
      ensures this.rd == rd && this.size == (if size < 16 then 16 else size) && buf == []
      ensures Valid() && Stream() == rd.Rest()
    {
      this.rd := rd;
      this.size := if size < 16 then 16 else size;
      buf := [];
    }

    /** `fill`: one file read of up to `size` bytes into the empty buffer. */
    method Fill() returns (m: nat, e: Option<Error>)
      requires Valid() && buf == []
      modifies this, rd
      ensures Valid() && m == Min(size, |old(rd.Rest())|)
      ensures buf == old(rd.Rest())[..m] && rd.Rest() == old(rd.Rest())[m..]
      ensures e == (if old(rd.Rest()) == [] then Some(rd.EndError()) else None)
    {
      var tmp := new Byte[size];
      m, e := rd.Read(tmp);
      buf := tmp[..m];
    }

    /** Copies as much of the buffer as fits to the front of `p`. */
    method Take(p: array<Byte>) returns (n: nat)
      modifies this, p
      ensures n == Min(|old(buf)|, p.Length)
      ensures p[..n] == old(buf)[..n] && buf == old(buf)[n..]
    {
      n := Min(|buf|, p.Length);
      for k := 0 to n
        modifies p
        invariant p[..k] == buf[..k]
      {
        p[k] := buf[k];
      }
      buf := buf[n..];
    }

    /** `(*bufio.Reader).Read`. With an empty buffer, a read at least as large
        as the reader's size goes straight to the file, and a smaller one
        first fills the buffer with one file read of up to `size` bytes;
        then as much of the buffer as fits is copied out. Either way the
        bytes returned are the next bytes of the stream. */
    method Read(p: array<Byte>) returns (n: nat, err: Option<Error>)
      requires Valid()
      modifies this, rd, p
      ensures Valid() && n <= p.Length && n <= |old(Stream())|
      ensures p[..n] == old(Stream())[..n] && Stream() == old(Stream())[n..]
      ensures n == (if p.Length == 0 then 0
                    else if old(buf) != [] then Min(|old(buf)|, p.Length)
                    else Min(p.Length, |old(rd.Rest())|))
      ensures err == (if p.Length > 0 && old(Stream()) == [] then Some(rd.EndError()) else None)
      ensures old(buf) == [] && 0 < p.Length < size ==>
                rd.Rest() == old(rd.Rest())[Min(size, |old(rd.Rest())|)..]
      ensures old(buf) != [] ==> rd.Rest() == old(rd.Rest())
    {
      if p.Length == 0 {
        return 0, None;
      }
      if buf == [] {
        if p.Length >= size {
          n, err := rd.Read(p);
          return n, err;
        }
        var m, e := Fill();
        if m == 0 {
          return 0, e;
        }
      }
      ghost var b, r := buf, rd.Rest();
      n := Take(p);
      SliceAppend(b, r, n);
      return n, None;
    }
  }

  /** Cutting a concatenation inside its first part. */
  lemma SliceAppend(b: seq<Byte>, r: seq<Byte>, n: nat)
    requires n <= |b|
    ensures (b + r)[..n] == b[..n] && (b + r)[n..] == b[n..] + r
  {
  }

  /** `readFileByChunk`: one read of up to `chunkSize` bytes. `Err(Eof)` is
      the `io.EOF` it returns at the end of the input; any other `Err(e)`
      stands for its `panic(e)`. */
  method ReadFileByChunk(r: BufReader, chunkSize: nat) returns (res: Outcome<seq<Byte>>)
    requires r.Valid()
    modifies r, r.rd
    ensures r.Valid()
    ensures res.Ok? ==> |res.value| <= chunkSize && |res.value| <= |old(r.Stream())|
                        && res.value == old(r.Stream())[..|res.value|]
                        && r.Stream() == old(r.Stream())[|res.value|..]
    ensures chunkSize > 0 ==> (res.Ok? <==> old(r.Stream()) != [])
    ensures chunkSize > 0 && res.Ok? ==> res.value != []
    ensures res.Err? ==> res.error == r.rd.EndError() && r.Stream() == old(r.Stream())
    ensures res.Ok? && old(r.buf) == [] && 0 < chunkSize < r.size ==>
              r.rd.Rest() == old(r.rd.Rest())[Min(r.size, |old(r.rd.Rest())|)..]
    ensures res.Ok? && old(r.buf) == [] ==> |res.value| == Min(chunkSize, |old(r.rd.Rest())|)
    ensures res.Ok? && old(r.buf) != [] ==> |res.value| == Min(chunkSize, |old(r.buf)|)
    ensures old(r.buf) != [] ==> r.rd.Rest() == old(r.rd.Rest())
  {
    ghost var s0 := r.Stream();
    var buffer := new Byte[chunkSize];
    var n, err := r.Read(buffer);
    if err.Some? {
      return Err(err.value);
    }
    var chunk := buffer[..n];
    assert chunk == s0[..n] && r.Stream() == s0[n..];
    return Ok(chunk);
  }
}
