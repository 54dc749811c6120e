# rjco_scraping: the scraper's rules, in Dafny

`rjco_scraping` drives a browser through the Colombian judiciary's process
portal. Almost everything it does is browser I/O; what is left once the
browser is taken away is a set of small, deterministic rules about strings,
dropdown options and result tables. This project states those rules in
Dafny and proves what they guarantee. Whatever the browser or the network
supplies (option lists, panel texts, table cells, the outcome of each court
search) is an input.

| module | file | models |
|---|---|---|
| `Wrappers` | wrappers.dfy | `Option` |
| `Text` | text.dfy | Python's `in`, slicing, `split`, `strip`, `replace` on `str` |
| `Options` | options.dfy | `get_options`: the dict built from a `<select>`'s options |
| `Actuaciones` | actuaciones.dfy | `_tranform_table`: flat cell list to six-column records |
| `CaseNumber` | case_number.dfy | `scraping_by_number`: code slicing, the court lookup, party lists, the case record |
| `Download` | download.dfy | cleaning the CSV link and choosing the file name in `scrap_entity` |
| `Aggregate` | aggregate.dfy | `scrap_entity`'s tagging, the loops of `scrap_city` and `scraping_by_text` |
| `Cli` | cli.dfy | `scraping_wraper`: mode choice and output name |

Notes on the modelling:

- A Python dict is a sequence of entries with distinct keys. Keys keep the
  position of their first insertion, and assigning an existing key replaces
  its value in place. Iteration order matters here. `scrap_city` searches
  courts in dict order, and the docket-number lookup takes the first court
  in dict order. When a label appears twice on the page, the dict holds the
  last value under the first position.
- `scrap_city` and `scraping_by_text` are methods with loops. Each is proved
  equal to a specification function (`CityResult`, `AllRows`,
  `CitySearched`, `AllSearched`), and the lemmas are proved about those
  functions. Each method also returns the list of courts it searched, so
  that "no inactive court is ever searched" can be stated.
- The docket-number lookup is the `for … else` loop of `scraping_by_number`.
  It is a method whose postconditions say which court is chosen: the first
  one whose value contains `code[5:9]`, or none.
- `_tranform_table` keeps the trailing group of the history table as a
  record with fewer keys (scraping.py:341-343), and the marker test at
  scraping.py:243 is case-sensitive. The model follows the code.

## Model

| member | source | states |
|---|---|---|
| `Text.Contains` | rjco_scraping/scraping.py:243 | Python's `in`: the empty needle is in every string, and a needle longer than the text is never in it |
| `Text.ContainsIff` | rjco_scraping/scraping.py:367 | Python's `needle in hay` holds exactly when the needle occurs at some position of the string |
| `Text.NotContainsChar` | rjco_scraping/scraping.py:243 | a string lacking any one character of the needle does not contain the needle under `in` |
| `Text.Slice` | rjco_scraping/scraping.py:357 | `s[lo:hi]` clamps bounds past the end: its length is `min(hi,|s|) - min(lo,|s|)` and it holds the characters from `lo` |
| `Text.Split` | rjco_scraping/scraping.py:424 | `split("-")` gives one more piece than there are separators, no piece holds the separator, and joining the pieces gives the string back |
| `Text.SplitJoin` | rjco_scraping/scraping.py:424 | splitting a join of separator-free parts gives the parts back |
| `Text.Strip` | rjco_scraping/scraping.py:425 | `strip()` never lengthens the text and leaves no whitespace at either end |
| `Text.StripSpec` | rjco_scraping/scraping.py:425 | `strip()` removes a whitespace prefix and suffix, and its result neither starts nor ends with whitespace |
| `Text.StripPadded` | rjco_scraping/scraping.py:425 | whitespace around a stripped, non-empty string is exactly what `strip()` removes |
| `Text.ReplaceAll` | rjco_scraping/scraping.py:213-214 | `replace` with a replacement no longer than the pattern never lengthens the text, and one of the same length keeps its length |
| `Text.ReplaceAbsent` | rjco_scraping/scraping.py:213-214 | `replace` leaves a string without the pattern unchanged |
| `Text.ReplaceSkipsPrefix` | rjco_scraping/scraping.py:213-214 | `replace` copies unchanged a prefix in which no occurrence starts |
| `Options.DictOf` | rjco_scraping/scraping.py:113-116 | the comprehension holds at most one entry per option, and its keys are distinct |
| `Options.GetOptions` | rjco_scraping/scraping.py:110-117 | `get_options` returns fewer entries than the control has options, since the placeholder is skipped, and its keys are distinct |
| `Options.Put` | rjco_scraping/scraping.py:113-116 | assigning a dict key keeps an existing key's place or appends a new key, and later reads see the new value |
| `Options.DictOfGet` | rjco_scraping/scraping.py:113-116 | in the dict comprehension, a label maps to the value of its last occurrence |
| `Options.DictOfLabels` | rjco_scraping/scraping.py:113-116 | the comprehension's keys are distinct, and they are exactly the texts of the options |
| `Options.DictOfOrder` | rjco_scraping/scraping.py:113-116 | the comprehension's keys come in the order of their first occurrence on the page |
| `Options.KeysFirstKeys` | rjco_scraping/scraping.py:113-116 | the comprehension's keys are the option texts listed once each, in the order of their first occurrence |
| `Options.GetOptionsSpec` | rjco_scraping/scraping.py:110-117 | `get_options`: the keys are exactly the distinct texts of `options[1:]`, each mapped to the value of its last occurrence |
| `Options.GetOptionsIgnoresPlaceholder` | rjco_scraping/scraping.py:115 | the first option is never read: replacing it does not change the dict |
| `Actuaciones.Zip` | rjco_scraping/scraping.py:342 | `zip` pairs the two sequences index by index up to the shorter length |
| `Actuaciones.Chunks` | rjco_scraping/scraping.py:341-342 | slicing by `range(0, n, 6)`: every chunk is non-empty and at most six cells long, and every chunk but the last has exactly six |
| `Actuaciones.TransformTable` | rjco_scraping/scraping.py:331-344 | `_tranform_table` yields one record per chunk of the cell list |
| `Actuaciones.ChunkCount` | rjco_scraping/scraping.py:342 | the comprehension over `range(0, n, 6)` yields `ceil(n / 6)` chunks |
| `Actuaciones.ChunkAt` | rjco_scraping/scraping.py:342 | chunk `k` is the slice `s[6k:6k+6]` |
| `Actuaciones.FlattenChunks` | rjco_scraping/scraping.py:341-343 | the chunks concatenated in order give the input back |
| `Actuaciones.TableCell` | rjco_scraping/scraping.py:340-343 | field `j` of record `k` is column `j` paired with cell `6k + j` |
| `Actuaciones.TableCount` | rjco_scraping/scraping.py:341-343 | the table has `ceil(n / 6)` records, so the trailing partial group is kept |
| `Actuaciones.TableKeys` | rjco_scraping/scraping.py:332-343 | every record but the last has the six keys in declared order; a short last record has the first `n % 6` keys |
| `Actuaciones.TableOfFullRows` | rjco_scraping/scraping.py:331-344 | `6m` cells give exactly `m` records, each with the six keys in order |
| `Actuaciones.TableValues` | rjco_scraping/scraping.py:340-343 | the records' values, read in order, reproduce the cell list |
| `CaseNumber.CityCode` | rjco_scraping/scraping.py:356-357 | the city value is the first `min(5, |code|)` characters of the code, a prefix of it |
| `CaseNumber.EntityFilter` | rjco_scraping/scraping.py:367 | the court filter is empty for codes of at most 5 characters, and otherwise is the text at position 5 of length up to 4 |
| `CaseNumber.ParseParties` | rjco_scraping/scraping.py:422-429 | one party per `-` in the text; no party holds `-` or has whitespace at either end |
| `CaseNumber.NoDashNoParties` | rjco_scraping/scraping.py:422-425 | text without `-` yields no party |
| `CaseNumber.PartiesRoundTrip` | rjco_scraping/scraping.py:422-429 | a label followed by whitespace-padded names joined by `-` parses back to the names |
| `CaseNumber.PartiesExample` | rjco_scraping/scraping.py:422-425 | `"Radicado - ACME SA - JOHN DOE"` parses to `["ACME SA", "JOHN DOE"]` |
| `CaseNumber.ScrapingByNumber` | rjco_scraping/scraping.py:354-438 | the city `code[:5]` is always selected; the court is the first in dict order whose value contains `code[5:9]`, and none is found exactly when no value contains it; a code of at most 5 characters takes the first court; a record exists exactly when a court was found and the consult did not fail, and it carries the code, the panel fields, the parsed parties and the regrouped history; otherwise the result is `{}` |
| `Download.CleanHref` | rjco_scraping/scraping.py:213-214 | removing the two wrapper markers never lengthens the link |
| `Download.FileName` | rjco_scraping/scraping.py:215 | the file name is the suffix after the last `/`, holds no `/`, and is the whole URL when there is no `/` |
| `Download.CleanWrapped` | rjco_scraping/scraping.py:213-214 | `javascript:abrirDocumento('u')` cleans to `u` when `u` holds neither marker and does not start with `)` |
| `Download.CleanWrappedLeadingParen` | rjco_scraping/scraping.py:213-214 | with `u = ")x"` the cleaned link is `javascript:abrirDocumento(x`, so the condition on the first character is needed |
| `Download.NoCloserInside` | rjco_scraping/scraping.py:213 | in a wrapped link whose `u` holds no `')` and does not start with `)`, the only `')` is the closing one, so the first replacement removes only that |
| `Download.FileNameAfterSlash` | rjco_scraping/scraping.py:215 | a URL `dir/name` with a slash-free `name` has the file name `name` |
| `Download.FileNameOfWrapped` | rjco_scraping/scraping.py:212-215 | a wrapped `dir/name` link is saved under `name` |
| `Aggregate.IsActive` | rjco_scraping/scraping.py:243 | a label shorter than `(Inactivo)` is always searched |
| `Aggregate.SetColumn` | rjco_scraping/scraping.py:221 | `df[column] = v` keeps the number of rows, sets the column to `v` in every row and leaves every other column untouched |
| `Aggregate.Contribution` | rjco_scraping/scraping.py:221-247 | every row one court adds to its city's table has `Entidad` equal to that court's label |
| `Aggregate.Collected` | rjco_scraping/scraping.py:241-254 | every row the courts loop collects has an `Entidad` column |
| `Aggregate.CityResult` | rjco_scraping/scraping.py:226-258 | `scrap_city` raises exactly when the city page fails before its loop; the error window gives an empty table; every row has `Ciudad` equal to the city and an `Entidad` column |
| `Aggregate.CityRows` | rjco_scraping/scraping.py:286-292 | every row one city adds to the run has `Ciudad` equal to that city's label and an `Entidad` column |
| `Aggregate.AllRows` | rjco_scraping/scraping.py:285-293 | every row of the run has a `Ciudad` and an `Entidad` column |
| `Aggregate.ScrapEntity` | rjco_scraping/scraping.py:155-223 | an error window yields an empty table, a failure raises, and downloaded rows come back one for one with `Entidad` set to the label and the other columns untouched |
| `Aggregate.Active` | rjco_scraping/scraping.py:241-249 | the courts searched are exactly those whose label does not contain `(Inactivo)`, case-sensitively |
| `Aggregate.ScrapCity` | rjco_scraping/scraping.py:226-258 | the city's table is the concatenation of the active courts' results in page order, with `Ciudad` set on every row; the courts searched are the active ones; an error window gives an empty table, and a failure before the loop raises |
| `Aggregate.ScrapingByText` | rjco_scraping/scraping.py:276-293 | the run's table is the concatenation of the cities' tables in page order, and a failed start gives an empty table and no search |
| `Aggregate.CollectedAppend` | rjco_scraping/scraping.py:241-254 | the courts loop over two runs of courts is the concatenation of the two |
| `Aggregate.FailingCourtCollectsNothing` | rjco_scraping/scraping.py:241-254 | an inactive court, a court that raises, or a court that shows the error window contributes no row |
| `Aggregate.FailingCourtAddsNothing` | rjco_scraping/scraping.py:241-254 | an inactive court, a court that raises, or a court that shows the error window adds no row and does not stop later courts |
| `Aggregate.ActiveAppend` | rjco_scraping/scraping.py:241-249 | the active courts keep their page order |
| `Aggregate.CollectedEntidad` | rjco_scraping/scraping.py:221-247 | every collected row names an active court of the city in `Entidad` |
| `Aggregate.CityRowsTagged` | rjco_scraping/scraping.py:241-256 | every row of a city's table has `Ciudad` equal to the city and `Entidad` equal to a searched court |
| `Aggregate.AllRowsAppend` | rjco_scraping/scraping.py:285-293 | the cities loop over two runs of cities is the concatenation of the two |
| `Aggregate.FailingCityAddsNothing` | rjco_scraping/scraping.py:285-293 | a city that raises or shows the error window adds no row and does not stop later cities |
| `Aggregate.AllSearchedActive` | rjco_scraping/scraping.py:241-288 | every (city, court) pair the run searches has a listed city and an active court |
| `Aggregate.AllRowsTagged` | rjco_scraping/scraping.py:221-288 | every row of the run comes from a (city, court) pair the run searched: `Ciudad` names that city and `Entidad` that court |
| `Aggregate.ExampleActiveCourt` | rjco_scraping/scraping.py:243 | a label without `(Inactivo)`, such as `JUZGADO 1 CIVIL`, is searched |
| `Aggregate.ExampleInactiveCourt` | rjco_scraping/scraping.py:243-244 | a label ending in `(Inactivo)` is skipped |
| `Aggregate.UpperCaseMarkerIsActive` | rjco_scraping/scraping.py:243 | the marker test is case-sensitive: a label ending in `(INACTIVO)` is still searched |
| `Aggregate.OneCityExampleRows` | rjco_scraping/scraping.py:226-293 | one listed city whose page holds a placeholder, an active and an inactive court, and whose active court exports two rows: the run returns exactly two rows, tagged with that court and that city |
| `Aggregate.OneCityExampleSearched` | rjco_scraping/scraping.py:241-249 | in that situation the run searches the active court of that city and nothing else |
| `Cli.ScrapingWrapper` | rjco_scraping/scraping.py:471-477 | `--code` selects the docket-number search and otherwise the text search; the text goes through unchanged; the output name is the base name followed by `.json` or `.xlsx` |
| `Cli.OutputNameInjective` | rjco_scraping/scraping.py:472-476 | the output name determines the base name and the mode |
| `Cli.DefaultNames` | rjco_scraping/scraping.py:469-476 | with the default base name the names passed on are `output.xlsx` and `output.json` |

## Left out

- Browser automation is not modelled: element waits, the error-window check and its close button, dropdown selection, typing, the slider gesture, clicks and timeouts (scraping.py:45-150, 157-211, 354-398). Their effect on a run becomes input: `EntitySearch`, `CityPage`, `Start`, and `DetailsPage` for `ScrapingByNumber`.
- The CSV download and parsing (`urlretrieve`, `pd.read_csv` with UTF-16 and `;`) are network and library calls. Downloaded rows are opaque input maps.
- Writing the output, deleting temporary CSVs and closing the driver are filesystem and process effects, so they are not modelled. The spreadsheet is always written as `result.xlsx` (scraping.py:309), whatever name `scraping_wraper` built.
- Logging, `time.sleep`, the `click` decorators and the environment-variable log level are not modelled.
- Interrupts and connection errors caught at the top level of both scrapers (`KeyboardInterrupt`, `RequestException`) are not modelled. An interrupt in the middle of the city loop would return the rows gathered so far.
- ScrapingByNumber: a failure between selecting the court and creating the record (scraping.py:371-397) is the `ConsultFailed` input and leaves `{}`. A wait that fails after the record was created (scraping.py:399-437) would leave a partly filled record; the model assumes such failures do not happen and treats the panel as always readable. In this routine the error-window checks only log, so they have no input. When `select_by_value` gets a city code the page does not list, Selenium's failure is not modelled. Likewise a wait that fails before the court lookup (scraping.py:350-365) would leave `{}`; the model takes the court list as read.
- Aggregate.ScrapEntity: the text searched for is part of what `search` answers and is not a separate parameter. pandas' column sorting in `concat` and the row index are not modelled. `concat` (scraping.py:247, 288) aligns the frames on the union of their columns and fills absent cells with NaN; here each row carries only its own CSV's columns plus `Entidad` and `Ciudad`, so the clauses of `SetColumn` and `ScrapEntity` about the other columns describe a row's own cells, not the aligned frame. Rows are maps from column to text, kept in order.
- Actuaciones.TransformTable: the lemmas are stated for `col = 6`, the only value the code passes. The function requires `col > 0`, because Python's `range` rejects a step of 0.
- Text.IsSpace: covers the characters for which Python's `str.isspace()` is true. Unicode normalisation is not involved.
- setup.py holds packaging metadata only and is not part of this model.
