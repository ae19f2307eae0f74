/** The prototype scanner of Gaijer/main.go: it loads a catalog of glyphs,
    reads the input file in chunks and, for each chunk, marks every glyph
    whose two-byte pattern occurs in it as used; at the end it reports each
    glyph and its flag. Glyphs are objects whose `used` flag is updated in
    place; the catalog list is a sequence of (possibly nil) references. */
module Gaijer {
  import opened Base
  import opened Text
  import opened Gaiji
  import opened Bytes
  import opened Reader

  /** The `gaiji` struct: a character, its code, and whether it was seen. */
  class Glyph {
    const moji: char
    const codepoint: string
    var used: bool

    constructor(moji: char, codepoint: string)
      ensures this.moji == moji && this.codepoint == codepoint && !used
    {
      this.moji := moji;
      this.codepoint := codepoint;
      used := false;
    }
  }

  /** Why loading the catalog fails, in the order the loader meets it: the
      file cannot be opened, a line is empty (`[]rune("")[0]` panics), or
      the scanner stopped on an error. */
  function LoadError(file: LineFile): Option<Error>
  {
    if file.Unopenable? then Some(file.openErr)
    else if !NoBlankLine(file.lines) then Some(IndexOutOfRange)
    else file.scanErr
  }

  /** `createGaijiList` of Gaijer/main.go. The list starts as
      `make([]*gaiji, initialLen)`, which holds `initialLen` nil entries, and
      each line appends a fresh glyph built from its first character with a
      lower-case hexadecimal code. The source passes 2000; 0 is the empty
      list the newer loader starts from (`var gaijiList []*Gaiji`,
      cmd/gaiji.go:25).
      `Err(IndexOutOfRange)` stands for the runtime panic on an empty line. */
  method CreateGaijiList(file: LineFile, initialLen: nat) returns (r: Outcome<seq<Glyph?>>)
    ensures r.Ok? <==> LoadError(file).None?
    ensures r.Err? ==> Some(r.error) == LoadError(file)
    ensures r.Ok? ==> |r.value| == initialLen + |file.lines|
    ensures r.Ok? ==> forall i :: 0 <= i < initialLen ==> r.value[i] == null
    ensures r.Ok? ==> forall i :: 0 <= i < |file.lines| ==>
              var g := r.value[initialLen + i];
              g != null && fresh(g) && !g.used && g.moji == file.lines[i][0]
              && g.codepoint == GaijiOf(file.lines[i], false).codepoint
    ensures r.Ok? ==> forall i, j :: initialLen <= i < j < |r.value| ==> r.value[i] != r.value[j]
    ensures r.Ok? ==> forall g :: g in r.value && g != null ==> fresh(g)
  {
    match file
    case Unopenable(e) =>
      return Err(e);
    case Lines(lines, scanErr) =>
      var list: seq<Glyph?> := seq(initialLen, _ => null);
      var k := 0;
      while k < |lines|
        invariant 0 <= k <= |lines|
        invariant forall i :: 0 <= i < k ==> lines[i] != []
        invariant |list| == initialLen + k
        invariant forall i :: 0 <= i < initialLen ==> list[i] == null
        invariant forall i :: 0 <= i < k ==>
                    var g := list[initialLen + i];
                    g != null && fresh(g) && !g.used && g.moji == lines[i][0]
                    && g.codepoint == GaijiOf(lines[i], false).codepoint
        invariant forall i, j :: initialLen <= i < j < |list| ==> list[i] != list[j]
        invariant forall g :: g in list && g != null ==> fresh(g)
      {
        var runes := lines[k];
        if |runes| == 0 {
          return Err(IndexOutOfRange);
        }
        var g := new Glyph(runes[0], Hex(runes[0] as int, false));
        list := list + [g];
        k := k + 1;
      }
      if scanErr.Some? {
        return Err(scanErr.value);
      }
      return Ok(list);
  }

  /** The index of the first nil entry, or the length when there is none:
      how far a `range` loop that dereferences every entry gets. */
  function FirstNull(list: seq<Glyph?>): (k: nat)
    ensures k <= |list| && null !in list[..k]
    ensures k < |list| <==> null in list
    ensures k < |list| ==> list[k] == null
  {
    if list == [] then 0
    else if list[0] == null then 0
    else
      var k := FirstNull(list[1..]);
      assert list[..k + 1] == [list[0]] + list[1..][..k];
      1 + k
  }

  /** Some chunk of `chunks` contains the pattern. */
  predicate SeenIn(chunks: seq<seq<Byte>>, key: BytePair)
  {
    exists k :: 0 <= k < |chunks| && ContainsPair(chunks[k], key)
  }

  lemma SeenInAppend(chunks: seq<seq<Byte>>, c: seq<Byte>, key: BytePair)
    ensures SeenIn(chunks + [c], key) <==> SeenIn(chunks, key) || ContainsPair(c, key)
  {
    if SeenIn(chunks + [c], key) && !ContainsPair(c, key) {
      var k :| 0 <= k < |chunks + [c]| && ContainsPair((chunks + [c])[k], key);
      assert k < |chunks| && ContainsPair(chunks[k], key);
    }
    if SeenIn(chunks, key) {
      var k :| 0 <= k < |chunks| && ContainsPair(chunks[k], key);
      assert (chunks + [c])[k] == chunks[k];
    }
    if ContainsPair(c, key) {
      assert (chunks + [c])[|chunks|] == c;
    }
  }

  /** The `used`-marking loop over the catalog for one chunk (the `range
      gaijiList` loop in `main`): every glyph not yet used whose pattern
      `key(moji)` occurs in the chunk becomes used. Dereferencing a nil entry
      panics (`panicked`); the glyphs before it have been handled. A flag
      only ever changes from false to true. */
  method MarkUsed(list: seq<Glyph?>, chunk: seq<Byte>, key: char -> BytePair) returns (panicked: bool)
    modifies set g | g in list && g != null
    ensures panicked <==> null in list
    ensures forall g :: g in list && g != null ==>
              g.used == (old(g.used) || (g in list[..FirstNull(list)] && ContainsPair(chunk, key(g.moji))))
  {
    var i := 0;
    while i < |list|
      invariant 0 <= i <= FirstNull(list)
      invariant forall g :: g in list && g != null ==>
                  g.used == (old(g.used) || (g in list[..i] && ContainsPair(chunk, key(g.moji))))
    {
      var v := list[i];
      if v == null {
        return true;
      }
      if !v.used {
        if ContainsPair(chunk, key(v.moji)) {
          v.used := true;
        }
      }
      assert list[..i + 1] == list[..i] + [v];
      i := i + 1;
    }
    return false;
  }

  // ---------------------------------------------------------------------------
  // Which bytes of the input are scanned

  /** Chunks of up to `width` bytes taken every `stride` bytes. */
  function Strided(s: seq<Byte>, width: nat, stride: nat): (chunks: seq<seq<Byte>>)
    requires 0 < width <= stride
    decreases |s|
  {
    if s == [] then []
    else [s[..Min(width, |s|)]] + Strided(s[Min(stride, |s|)..], width, stride)
  }

  /** The chunks the loop of `main` scans as written: every pass makes a new
      reader of size 10000 over the file, its first read takes up to 10000
      bytes from the file, the chunk is the first 1000 of them, and the
      other bytes are dropped with the reader. */
  function ChunksAsWritten(s: seq<Byte>): seq<seq<Byte>>
  {
    Strided(s, 1000, 10000)
  }

  /** The chunks of a loop that keeps one reader: consecutive pieces of 1000
      bytes, the last one shorter. */
  function ChunksFixed(s: seq<Byte>): seq<seq<Byte>>
  {
    Strided(s, 1000, 1000)
  }

  /** Chunk `q` starts at byte `stride * q` and holds up to `width` bytes;
      there is a chunk for every start inside the input and no other. */
  lemma {:induction false} StridedChunk(s: seq<Byte>, width: nat, stride: nat, q: nat)
    requires 0 < width <= stride
    ensures q < |Strided(s, width, stride)| <==> stride * q < |s|
    ensures stride * q < |s| ==>
              Strided(s, width, stride)[q] == s[stride * q .. stride * q + Min(width, |s| - stride * q)]
    decreases q
  {
    if s == [] {
      assert stride * q >= 0;
    } else if q == 0 {
      assert stride * q == 0;
    } else {
      var m := Min(stride, |s|);
      var t := s[m..];
      var a := StrideBefore(stride, q);
      StridedChunk(t, width, stride, q - 1);
      StridedTail(s, width, stride, q);
      if stride * q < |s| {
        assert m == stride;
        ChunkOfSuffix(s, m, a, Min(width, |t| - a));
      }
    }
  }

  /** Chunk `q` of a non-empty input is chunk `q - 1` of what follows the
      first stride. */
  lemma StridedTail(s: seq<Byte>, width: nat, stride: nat, q: nat)
    requires 0 < width <= stride && s != [] && q > 0
    ensures var t := s[Min(stride, |s|)..];
      |Strided(s, width, stride)| == 1 + |Strided(t, width, stride)|
      && (q < |Strided(s, width, stride)| ==> Strided(s, width, stride)[q] == Strided(t, width, stride)[q - 1])
  {
  }

  /** The start of stride `q` is one stride after the start of stride `q - 1`. */
  lemma StrideBefore(stride: nat, q: nat) returns (a: nat)
    requires q > 0
    ensures a == stride * (q - 1) && stride * q == a + stride
  {
    a := stride * (q - 1);
    assert stride * q == stride * (q - 1) + stride * 1;
  }

  lemma ChunkOfSuffix(s: seq<Byte>, m: nat, a: nat, w: nat)
    requires m + a + w <= |s|
    ensures s[m..][a .. a + w] == s[m + a .. m + a + w]
  {
  }

  /** Byte `p` lies in chunk `q`. */
  predicate InChunk(chunks: seq<seq<Byte>>, stride: nat, q: int, p: nat)
  {
    0 <= q < |chunks| && stride * q <= p < stride * q + |chunks[q]|
  }

  /** Byte `stride * q + o` of the input, with `o` its offset within its
      stride, lies in a chunk exactly when `o` is below the width: the loop
      as written never looks at bytes 1000 to 9999 of each 10000. */
  lemma Coverage(s: seq<Byte>, width: nat, stride: nat, p: nat, q: nat, o: nat)
    requires 0 < width <= stride && o < stride && p == stride * q + o && p < |s|
    ensures (exists q' :: InChunk(Strided(s, width, stride), stride, q', p)) <==> o < width
  {
    var chunks := Strided(s, width, stride);
    StridedChunk(s, width, stride, q);
    if o < width {
      assert InChunk(chunks, stride, q, p);
    }
    if exists q' :: InChunk(chunks, stride, q', p) {
      var q' :| InChunk(chunks, stride, q', p);
      StridedChunk(s, width, stride, q');
      SameStride(stride, q, q', o, p - stride * q');
    }
  }

  /** A byte has one position in whole strides. */
  lemma SameStride(stride: nat, q: nat, q': nat, o: nat, o': nat)
    requires o < stride && o' < stride && stride * q + o == stride * q' + o'
    ensures q == q' && o == o'
  {
    if q < q' {
      MulMono(stride, q + 1, q');
    } else if q' < q {
      MulMono(stride, q' + 1, q);
    }
  }

  lemma {:induction false} MulMono(k: nat, a: nat, b: nat)
    requires a <= b
    ensures k * a <= k * b
    decreases b - a
  {
    if a < b {
      MulMono(k, a + 1, b);
    }
  }

  /** A pair of bytes that starts at an offset `o` below 999 inside stride
      `q` lies within piece `q`, so the pieces see it. */
  lemma PairInPiece(s: seq<Byte>, key: BytePair, p: nat, q: nat, o: nat)
    requires p == 1000 * q + o && o + 1 < 1000 && p + 1 < |s|
    requires s[p] == key.first && s[p + 1] == key.second
    ensures SeenIn(ChunksFixed(s), key)
  {
    StridedChunk(s, 1000, 1000, q);
    var c := ChunksFixed(s)[q];
    assert c == s[p - o .. p - o + Min(1000, |s| - (p - o))];
    assert o + 1 < |c|;
    assert c[o] == key.first && c[o + 1] == key.second;
    ContainsPairIff(c, key);
  }

  /** With one reader kept across passes, every character of a UTF-16LE
      input is found under its intended pattern: its two bytes start at an
      even offset, so they never straddle two chunks of 1000 bytes. */
  lemma FixedChunksFindEveryCharacter(t: string, j: nat)
    requires forall i :: 0 <= i < |t| ==> t[i] as int < 0x10000
    requires j < |t|
    ensures SeenIn(ChunksFixed(Utf16LE(t)), Utf16LEKey(t[j]))
  {
    Utf16LEAt(t, j);
    var q, r := j / 500, j % 500;
    assert j == 500 * q + r;
    PairInPiece(Utf16LE(t), Utf16LEKey(t[j]), 2 * j, q, 2 * r);
  }

  /** An input of 500 'A's and then '垠', in UTF-16LE: 1002 bytes. The loop
      as written scans only the first 1000 of them and misses the glyph even
      under its intended pattern; a loop that keeps its reader finds it. */
  lemma AsWrittenMissesGlyph()
    ensures var s := Utf16LE(seq(500, _ => 'A') + ['垠']);
      |s| == 1002 && ChunksAsWritten(s) == [s[..1000]]
      && !SeenIn(ChunksAsWritten(s), Utf16LEKey('垠'))
      && SeenIn(ChunksFixed(s), Utf16LEKey('垠'))
  {
    var t := seq(500, _ => 'A') + ['垠'];
    var s := Utf16LE(t);
    var key := Utf16LEKey('垠');
    assert Strided(s[1002..], 1000, 10000) == [];
    assert ChunksAsWritten(s) == [s[..1000]];
    forall i | 0 <= i < 1000
      ensures s[..1000][i] != 0xA0
    {
      Utf16LEAt(t, i / 2);
      assert i == 2 * (i / 2) || i == 2 * (i / 2) + 1;
    }
    ContainsPairIff(s[..1000], key);
    forall k | 0 <= k < |ChunksAsWritten(s)|
      ensures !ContainsPair(ChunksAsWritten(s)[k], key)
    {
      assert k == 0;
    }
    FixedChunksFindEveryCharacter(t, 500);
  }

  // ---------------------------------------------------------------------------
  // The reading loop of `main`

  /** Once the stream is empty no chunk is left, and a non-empty stream
      yields its first chunk first. */
  lemma StridedFirst(s: seq<Byte>, width: nat, stride: nat)
    requires 0 < width <= stride
    ensures Strided(s, width, stride) == [] <==> s == []
    ensures s != [] ==> Strided(s, width, stride)[0] == s[..Min(width, |s|)]
    ensures s != [] ==> Strided(s, width, stride)
                        == [s[..Min(width, |s|)]] + Strided(s[Min(stride, |s|)..], width, stride)
  {
  }

  /** The reading loop of `main` as written: every pass wraps the file in a
      new `bufio.NewReaderSize(fpIn, 10000)` and reads a chunk of 1000 bytes
      from it, so the chunks are `ChunksAsWritten` of the input. The loop
      ends at the end of the input; any other read error panics. A nil
      catalog entry panics at the first chunk. */
  method ScanInput(list: seq<Glyph?>, input: File, key: char -> BytePair) returns (err: Option<Error>)
    requires input.Valid()
    modifies input, set g | g in list && g != null
    ensures input.Valid()
    ensures err == (if old(input.Rest()) != [] && null in list then Some(NilDereference)
                    else if input.EndError() != Eof then Some(input.EndError()) else None)
    ensures null !in list ==> forall g :: g in list && g != null ==>
              g.used == (old(g.used) || SeenIn(ChunksAsWritten(old(input.Rest())), key(g.moji)))
    ensures null in list ==> forall g :: g in list && g != null ==>
              g.used == (old(g.used) || (old(input.Rest()) != [] && g in list[..FirstNull(list)]
                                         && ContainsPair(ChunksAsWritten(old(input.Rest()))[0], key(g.moji))))
  {
    ghost var s0 := input.Rest();
    ghost var done: seq<seq<Byte>> := [];
    StridedFirst(s0, 1000, 10000);
    while true
      invariant input.Valid()
      invariant done + ChunksAsWritten(input.Rest()) == ChunksAsWritten(s0)
      invariant done != [] ==> null !in list && s0 != []
      invariant done == [] ==> input.Rest() == s0
      invariant forall g :: g in list && g != null ==> g.used == (old(g.used) || SeenIn(done, key(g.moji)))
      decreases |input.Rest()|
    {
      ghost var rest := input.Rest();
      var reader := new BufReader(input, 10000);
      var res := ReadFileByChunk(reader, 1000);
      if res.Err? {
        StridedFirst(rest, 1000, 10000);
        assert done == ChunksAsWritten(s0);
        if res.error != Eof {
          return Some(res.error);
        }
        return None;
      }
      var chunk := res.value;
      assert chunk == rest[..Min(1000, |rest|)] && input.Rest() == rest[Min(10000, |rest|)..];
      StridedFirst(rest, 1000, 10000);
      assert ChunksAsWritten(rest) == [chunk] + ChunksAsWritten(input.Rest());
      AppendAssoc(done, [chunk], ChunksAsWritten(input.Rest()));
      label Marking:
      var panicked := MarkUsed(list, chunk, key);
      if panicked {
        return Some(NilDereference);
      }
      assert list[..FirstNull(list)] == list;
      assert input.Valid();
      forall g | g in list && g != null
        ensures g.used == (old(g.used) || SeenIn(done + [chunk], key(g.moji)))
      {
        assert old@Marking(g.used) == (old(g.used) || SeenIn(done, key(g.moji)));
        SeenInAppend(done, chunk, key(g.moji));
      }
      done := done + [chunk];
    }
  }

  /** The kept reader's buffer stays a whole number of chunks, unless the
      file is exhausted. */
  predicate Aligned(r: BufReader)
    reads r, r.rd
  {
    r.Valid() && r.size == 10000 && (|r.buf| % 1000 == 0 || r.rd.Rest() == [])
  }

  /** One `readFileByChunk(reader, 1000)` on the kept reader: the next
      piece of 1000 bytes of the stream, or the end error once it is empty. */
  method ReadPiece(r: BufReader) returns (res: Outcome<seq<Byte>>)
    requires Aligned(r)
    modifies r, r.rd
    ensures Aligned(r)
    ensures res.Err? <==> old(r.Stream()) == []
    ensures res.Err? ==> res.error == r.rd.EndError()
    ensures res.Ok? ==> ChunksFixed(old(r.Stream())) == [res.value] + ChunksFixed(r.Stream())
                        && |r.Stream()| < |old(r.Stream())|
  {
    ghost var stream, buf, rest := r.Stream(), r.buf, r.rd.Rest();
    res := ReadFileByChunk(r, 1000);
    if res.Err? {
      return;
    }
    var n := |res.value|;
    assert n == Min(1000, |stream|);
    assert |r.buf| == |r.Stream()| - |r.rd.Rest()|;
    if buf == [] {
      assert stream == rest;
      if |rest| >= 10000 {
        assert |r.buf| == 9000;
      } else {
        assert r.rd.Rest() == [];
      }
    } else {
      assert r.rd.Rest() == rest;
      if |buf| % 1000 == 0 {
        assert n == 1000 && |r.buf| == |buf| - 1000;
      }
    }
  }

  /** The reading loop with the reader created once, before the loop, as
      evidently intended: the reader hands out its 10000-byte buffer 1000
      bytes at a time, so the chunks are consecutive pieces of 1000 bytes
      (`ChunksFixed`) and every byte of the input is scanned. */
  method ScanInputFixed(list: seq<Glyph?>, input: File, key: char -> BytePair) returns (err: Option<Error>)
    requires input.Valid() && null !in list
    modifies input, set g | g in list && g != null
    ensures input.Valid()
    ensures err == (if input.EndError() != Eof then Some(input.EndError()) else None)
    ensures forall g :: g in list && g != null ==>
              g.used == (old(g.used) || SeenIn(ChunksFixed(old(input.Rest())), key(g.moji)))
  {
    ghost var s0 := input.Rest();
    ghost var done: seq<seq<Byte>> := [];
    var reader := new BufReader(input, 10000);
    while true
      invariant Aligned(reader) && reader.rd == input
      invariant done + ChunksFixed(reader.Stream()) == ChunksFixed(s0)
      invariant forall g :: g in list && g != null ==> g.used == (old(g.used) || SeenIn(done, key(g.moji)))
      decreases |reader.Stream()|
    {
      ghost var stream := reader.Stream();
      var res := ReadPiece(reader);
      if res.Err? {
        StridedFirst(stream, 1000, 1000);
        assert done == ChunksFixed(s0);
        if res.error != Eof {
          return Some(res.error);
        }
        return None;
      }
      var chunk := res.value;
      assert (done + [chunk]) + ChunksFixed(reader.Stream()) == ChunksFixed(s0);
      label Marking:
      var panicked := MarkUsed(list, chunk, key);
      assert !panicked;
      assert list[..FirstNull(list)] == list;
      assert Aligned(reader) && reader.rd == input;
      assert (done + [chunk]) + ChunksFixed(reader.Stream()) == ChunksFixed(s0);
      forall g | g in list && g != null
        ensures g.used == (old(g.used) || SeenIn(done + [chunk], key(g.moji)))
      {
        assert old@Marking(g.used) == (old(g.used) || SeenIn(done, key(g.moji)));
        SeenInAppend(done, chunk, key(g.moji));
      }
      done := done + [chunk];
    }
  }

  // ---------------------------------------------------------------------------
  // The whole program

  /** One line printed at the end: the entry's index, character and flag. */
  datatype Usage = Usage(index: nat, moji: char, used: bool)

  /** The closing `range gaijiList` loop of `main`: one line per entry, in
      list order; dereferencing a nil entry panics before it is printed. */
  method Report(list: seq<Glyph?>) returns (lines: seq<Usage>, err: Option<Error>)
    ensures err == (if null in list then Some(NilDereference) else None)
    ensures |lines| == FirstNull(list)
    ensures forall i :: 0 <= i < |lines| ==> list[i] != null && lines[i] == Usage(i, list[i].moji, list[i].used)
  {
    lines := [];
    for i := 0 to |list|
      invariant i <= FirstNull(list) && |lines| == i
      invariant forall k :: 0 <= k < i ==> list[k] != null && lines[k] == Usage(k, list[k].moji, list[k].used)
    {
      var v := list[i];
      if v == null {
        return lines, Some(NilDereference);
      }
      lines := lines + [Usage(i, v.moji, v.used)];
    }
    return lines, None;
  }

  /** `main` of Gaijer/main.go as written: the catalog list starts with 2000
      nil entries and the pattern is `MatchKey`. `openErr` is the outcome of
      opening the input file. Whatever the inputs, the program panics and
      prints no line: on a failed load or open, on a read error, and
      otherwise on the first nil entry, met by the marking loop at the first
      chunk or, for an empty input, by the closing loop. */
  method Run(catalog: LineFile, openErr: Option<Error>, input: File) returns (lines: seq<Usage>, err: Option<Error>)
    requires input.Valid()
    modifies input
    ensures err.Some? && lines == []
    ensures LoadError(catalog).Some? ==> err == LoadError(catalog)
    ensures LoadError(catalog).None? && openErr.Some? ==> err == openErr
    ensures LoadError(catalog).None? && openErr.None? ==>
              err == (if old(input.Rest()) == [] && input.EndError() != Eof then Some(input.EndError())
                      else Some(NilDereference))
  {
    var loaded := CreateGaijiList(catalog, 2000);
    if loaded.Err? {
      return [], Some(loaded.error);
    }
    if openErr.Some? {
      return [], openErr;
    }
    var list := loaded.value;
    assert list[0] == null;
    err := ScanInput(list, input, MatchKey);
    if err.Some? {
      return [], err;
    }
    lines, err := Report(list);
  }

  /** `main` as evidently intended: an empty initial list, the UTF-16LE
      pattern, and one reader kept across passes. Unless loading, opening or
      reading fails, it prints one line per catalog line, in order, whose
      flag says whether the glyph's pattern occurs in some chunk of 1000
      bytes of the input. */
  method RunFixed(catalog: LineFile, openErr: Option<Error>, input: File) returns (lines: seq<Usage>, err: Option<Error>)
    requires input.Valid()
    modifies input
    ensures LoadError(catalog).Some? ==> err == LoadError(catalog) && lines == []
    ensures LoadError(catalog).None? && openErr.Some? ==> err == openErr && lines == []
    ensures LoadError(catalog).None? && openErr.None? ==>
              err == (if input.EndError() != Eof then Some(input.EndError()) else None)
    ensures err.None? ==> catalog.Lines? && |lines| == |catalog.lines|
    ensures err.None? ==> forall i :: 0 <= i < |lines| ==>
              lines[i] == Usage(i, catalog.lines[i][0],
                                SeenIn(ChunksFixed(old(input.Rest())), Utf16LEKey(catalog.lines[i][0])))
  {
    var loaded := CreateGaijiList(catalog, 0);
    if loaded.Err? {
      return [], Some(loaded.error);
    }
    if openErr.Some? {
      return [], openErr;
    }
    var list := loaded.value;
    forall k | 0 <= k < |list|
      ensures list[k] != null
    {
      assert catalog.lines[k] != [];
    }
    err := ScanInputFixed(list, input, Utf16LEKey);
    if err.Some? {
      return [], err;
    }
    lines, err := Report(list);
  }
}
