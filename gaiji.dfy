/** Catalog loading (cmd/gaiji.go): each decoded line of the glyph catalog
    becomes one glyph, its first character tagged with that character's code
    point in upper-case hexadecimal. The UTF-16BE decoding in front of the
    scanner is outside the model; the method receives the decoded lines. */
module Gaiji {
  import opened Base
  import opened Text

  /** One catalog entry: the character searched for and its display code. */
  datatype Gaiji = Gaiji(moji: char, codepoint: string)

  /** The glyph a non-blank catalog line stands for: its first character, with
      `%X` (upper) or `%x` of that character's code point. */
  function GaijiOf(line: string, upper: bool): Gaiji
    requires line != []
  {
    Gaiji(line[0], Hex(line[0] as int, upper))
  }

  /** No scanned line is empty. */
  predicate NoBlankLine(lines: seq<string>)
  {
    forall i :: 0 <= i < |lines| ==> lines[i] != []
  }

  /** `CreateGaijiList`: the first blank line aborts with an error naming the
      file and no list; otherwise a scanner error aborts with that error and no
      list; otherwise the list holds one glyph per line, in line order,
      duplicates included. */
  method CreateGaijiList(fileName: string, file: LineFile) returns (r: Outcome<seq<Gaiji>>)
    ensures file.Unopenable? ==> r == Err(file.openErr)
    ensures file.Lines? && !NoBlankLine(file.lines) ==> r == Err(BlankLine(fileName))
    ensures file.Lines? && NoBlankLine(file.lines) && file.scanErr.Some? ==> r == Err(file.scanErr.value)
    ensures r.Ok? <==> file.Lines? && NoBlankLine(file.lines) && file.scanErr.None?
    ensures r.Ok? ==> |r.value| == |file.lines|
    ensures r.Ok? ==> forall i :: 0 <= i < |file.lines| ==> r.value[i] == GaijiOf(file.lines[i], true)
  {
    match file
    case Unopenable(e) =>
      return Err(e);
    case Lines(lines, scanErr) =>
      var list: seq<Gaiji> := [];
      var k := 0;
      while k < |lines|
        invariant 0 <= k <= |lines|
        invariant forall i :: 0 <= i < k ==> lines[i] != []
        invariant |list| == k
        invariant forall i :: 0 <= i < k ==> list[i] == GaijiOf(lines[i], true)
      {
        var line := lines[k];
        if line == [] {
          return Err(BlankLine(fileName));
        }
        var moji := line[0];
        list := list + [Gaiji(moji, Hex(moji as int, true))];
        k := k + 1;
      }
      if scanErr.Some? {
        return Err(scanErr.value);
      }
      return Ok(list);
  }

  /** A glyph's code reads back as its character's code point, whatever else
      stands on the line. */
  lemma CodeIsCodePoint(line: string, upper: bool)
    requires line != []
    ensures ParseHex(GaijiOf(line, upper).codepoint) == line[0] as int
    ensures GaijiOf(line, upper) == GaijiOf(line[..1], upper)
  {
    HexRoundTrip(line[0] as int, upper);
  }

  /** Two catalog lines get the same code exactly when they start with the same
      character: codes identify glyphs. */
  lemma SameCodeIffSameCharacter(a: string, b: string, upper: bool)
    requires a != [] && b != []
    ensures GaijiOf(a, upper).codepoint == GaijiOf(b, upper).codepoint <==> a[0] == b[0]
  {
    HexInjective(a[0] as int, b[0] as int, upper);
  }

  /** An upper-case code has no lower-case letters and no leading zero. */
  lemma CodeIsUpperUnpadded(line: string)
    requires line != []
    ensures var c := GaijiOf(line, true).codepoint;
      (forall i :: 0 <= i < |c| ==> '0' <= c[i] <= '9' || 'A' <= c[i] <= 'F')
      && (|c| == 1 || c[0] != '0')
  {
  }
}
