/**
 * The default map of Rossumoya. `BioSim.default_map` and
 * `Landscape.default_geogr` are the same text, indented differently in the
 * source and equal once `textwrap.dedent` has removed the indentation.
 */
module DefaultIsland {
  import opened Text
  import opened IslandMap

  /** The lines of the default map once dedented: 13 rows of 21 codes. */
  const DefaultRows: seq<string> := [
    "OOOOOOOOOOOOOOOOOOOOO",
    "OOOOOOOOSMMMMJJJJJJJO",
    "OSSSSSJJJJMMJJJJJJJOO",
    "OSSSSSSSSSMMJJJJJJOOO",
    "OSSSSSJJJJJJJJJJJJOOO",
    "OSSSSSJJJDDJJJSJJJOOO",
    "OSSJJJJJDDDJJJSSSSOOO",
    "OOSSSSJJJDDJJJSOOOOOO",
    "OSSSJJJJJDDJJJJJJJOOO",
    "OSSSSJJJJDDJJJJOOOOOO",
    "OOSSSSJJJJJJJJOOOOOOO",
    "OOOSSSSJJJJJJJOOOOOOO",
    "OOOOOOOOOOOOOOOOOOOOO"
  ]

  /** `BioSim.default_map` and `Landscape.default_geogr`: the dedented lines joined by newlines. */
  const DefaultMap: string := Join(DefaultRows, '\n')

  /** Every character of `row` is one of the five landscape codes. */
  predicate RowCodes(row: string) {
    forall j :: 0 <= j < |row| ==> CellCode(row[j]).Some?
  }

  lemma DefaultCodesTop()
    ensures forall i :: 0 <= i < 5 ==> RowCodes(DefaultRows[i])
  {
    assert RowCodes(DefaultRows[0]) && RowCodes(DefaultRows[1]) && RowCodes(DefaultRows[2]);
    assert RowCodes(DefaultRows[3]) && RowCodes(DefaultRows[4]);
  }

  lemma DefaultCodesMiddle()
    ensures forall i :: 5 <= i < 9 ==> RowCodes(DefaultRows[i])
  {
    assert RowCodes(DefaultRows[5]) && RowCodes(DefaultRows[6]);
    assert RowCodes(DefaultRows[7]) && RowCodes(DefaultRows[8]);
  }

  lemma DefaultCodesBottom()
    ensures forall i :: 9 <= i < 13 ==> RowCodes(DefaultRows[i])
  {
    assert RowCodes(DefaultRows[9]) && RowCodes(DefaultRows[10]);
    assert RowCodes(DefaultRows[11]) && RowCodes(DefaultRows[12]);
  }

  /** The default map uses only the five landscape codes. */
  lemma DefaultCodes()
    ensures ValidCodes(DefaultRows)
  {
    DefaultCodesTop();
    DefaultCodesMiddle();
    DefaultCodesBottom();
    assert forall i :: 0 <= i < |DefaultRows| ==> RowCodes(DefaultRows[i]);
  }

  /** The default map has 13 rows of 21 characters. */
  lemma DefaultShape()
    ensures |DefaultRows| == 13 && forall i :: 0 <= i < 13 ==> |DefaultRows[i]| == 21
    ensures Rectangular(DefaultRows)
  {
  }

  /** The first and last rows are all ocean, and so are both ends of every row. */
  lemma DefaultBorder()
    ensures AllOcean(DefaultRows[0]) && AllOcean(DefaultRows[|DefaultRows| - 1])
    ensures forall i :: 0 <= i < |DefaultRows| ==> DefaultRows[i][0] == 'O' && DefaultRows[i][|DefaultRows[i]| - 1] == 'O'
  {
  }

  /** Splitting the default map at its newlines gives back its rows. */
  lemma DefaultRowsSplit()
    ensures Split(DefaultMap, '\n') == DefaultRows
  {
    assert forall k :: 0 <= k < |DefaultRows| ==> '\n' !in DefaultRows[k];
    SplitJoin(DefaultRows, '\n');
  }

  /** The default map splits back into its rows, and it is a well-formed island. */
  lemma DefaultMapWellFormed()
    ensures Split(DefaultMap, '\n') == DefaultRows
    ensures WellFormed(DefaultRows)
  {
    DefaultRowsSplit();
    DefaultCodes();
    DefaultShape();
    DefaultBorder();
  }
}
