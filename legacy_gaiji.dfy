/** The older catalog loader of the root package (gaiji.go): no blank-line
    check, so `[]rune("")[0]` panics on an empty line, and the code is
    lower-case hexadecimal (`%x`). */
module LegacyGaiji {
  import opened Base
  import opened Text
  import opened Gaiji

  /** `createGaijiList` of gaiji.go. `Err(IndexOutOfRange)` stands for the
      runtime panic on the first empty line, which ends the process. */
  method CreateGaijiList(file: LineFile) returns (r: Outcome<seq<Gaiji>>)
    ensures file.Unopenable? ==> r == Err(file.openErr)
    ensures file.Lines? && !NoBlankLine(file.lines) ==> r == Err(IndexOutOfRange)
    ensures file.Lines? && NoBlankLine(file.lines) && file.scanErr.Some? ==> r == Err(file.scanErr.value)
    ensures r.Ok? <==> file.Lines? && NoBlankLine(file.lines) && file.scanErr.None?
    ensures r.Ok? ==> |r.value| == |file.lines|
    ensures r.Ok? ==> forall i :: 0 <= i < |file.lines| ==> r.value[i] == GaijiOf(file.lines[i], false)
  {
    match file
    case Unopenable(e) =>
      return Err(e);
    case Lines(lines, scanErr) =>
      var list: seq<Gaiji> := [];
      var k := 0;
      while k < |lines|
        invariant 0 <= k <= |lines|
        invariant forall i :: 0 <= i < k ==> lines[i] != []
        invariant |list| == k
        invariant forall i :: 0 <= i < k ==> list[i] == GaijiOf(lines[i], false)
      {
        var runes := lines[k];
        if |runes| == 0 {
          return Err(IndexOutOfRange);
        }
        var moji := runes[0];
        list := list + [Gaiji(moji, Hex(moji as int, false))];
        k := k + 1;
      }
      if scanErr.Some? {
        return Err(scanErr.value);
      }
      return Ok(list);
  }

  /** The older code is the newer one with its letters lower-cased, so the two
      loaders agree on every character and differ only in letter case. */
  lemma LegacyCodeIsLowerCased(line: string)
    requires line != []
    ensures GaijiOf(line, false).moji == GaijiOf(line, true).moji
    ensures GaijiOf(line, false).codepoint == LowerHexString(GaijiOf(line, true).codepoint)
  {
    HexLowerOfUpper(line[0] as int);
  }
}
