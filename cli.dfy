/**
 * `scraping_wraper` (scraping.py:463-477): the command-line entry point. It
 * picks the search by text or by docket number and appends the matching
 * extension to the output base name.
 */
module Cli {

  const DefaultOutput: string := "output"

  /** Which scraper the command runs, with the arguments it passes on. */
  datatype Run =
    | ByText(text2search: string, outputFile: string)   // `scraping_by_text`, spreadsheet output
    | ByNumber(code: string, outputFile: string)        // `scraping_by_number`, JSON output

  /** `--code` selects the docket-number search; `--text2search` carries either the text or the number. */
  function ScrapingWrapper(text2search: string, outputFile: string, code: bool): (r: Run)
    ensures r.ByNumber? <==> code
    ensures (if code then r.code else r.text2search) == text2search
    ensures |r.outputFile| == |outputFile| + 5 && outputFile <= r.outputFile
    ensures r.outputFile[|outputFile|..] == if code then ".json" else ".xlsx"
  {
    if !code then ByText(text2search, outputFile + ".xlsx")
    else ByNumber(text2search, outputFile + ".json")
  }

  /** The output name determines the base name and the mode it was built from. */
  lemma OutputNameInjective(t1: string, o1: string, c1: bool, t2: string, o2: string, c2: bool)
    requires ScrapingWrapper(t1, o1, c1).outputFile == ScrapingWrapper(t2, o2, c2).outputFile
    ensures o1 == o2 && c1 == c2
  {
    var n := ScrapingWrapper(t1, o1, c1).outputFile;
    assert o1 == n[..|n| - 5] == o2;
    assert ".json" != ".xlsx" by { assert ".json"[1] != ".xlsx"[1]; }
  }

  /** With the default base name the names passed on are `output.xlsx` and `output.json`. */
  lemma DefaultNames(text2search: string)
    ensures ScrapingWrapper(text2search, DefaultOutput, false).outputFile == "output.xlsx"
    ensures ScrapingWrapper(text2search, DefaultOutput, true).outputFile == "output.json"
  {
  }
}
