# Football prediction confidence: a verified model

The system scrapes three football prediction sites once a day: the AI Goalie
predictions table, the OLBG tips and the Oddspedia consensus tips. It keeps
the confident predictions of each site and looks up every AI Goalie pick in
the other two tables by the significant words of the pick. It then writes one
combined record per AI Goalie prediction that another site also tips. The
records are rendered as HTML tables: a daily report with five columns and a
published page with seven columns, stored in one folder per day.

This project models that core in Dafny and proves what it does.

- `wrappers.dfy`: the `Option` type. A `None` cell stands for a missing
  (NaN) value.
- `text.dfy`, `numbers.dfy`: the Python string and number operations the
  core relies on: `isspace`, `lower`, `strip`, `split`, `split(sep)`,
  `replace(pat, "")`, `int()`, decimal `float()`, `math.ceil`, and `%02d`
  padding.
- `seqs.dfy`: the list-building loops as filter and map specifications.
- `tokens.dfy`: `get_match_tokens`.
- `ai_goalie.dfy`: the AI Goalie rows, goals line, day filter and Win %
  filters.
- `oddspedia.dfy`, `olbg.dfy`: the other two scrapers' row logic.
- `compare.dfy`: the matching and merging loop of
  `compare_confidence_sources` and its numeric conversion.
- `html.dfy`: the table cells and the placeholder row shared by both
  reports.
- `day_gen.dfy`: the daily report's rows and table body.
- `github.dfy`: the published page's rows and table body, and the day
  folder name.

The tokenizer has an independent reference definition. Blanking stop-words
in the text and then splitting gives the same words as splitting and then
dropping the stop-words (`Tokens.StopwordRemoval`).

The scraping and filtering loops are methods proved equal to filter/map
specifications, and the properties are proved about those specifications.

Modelling notes:
- A primary row whose `Result` cell is missing (NaN) gets a missing Result.
  NaN is truthy in Python, so the source copies it, and it stays missing.
- A primary row matched by OLBG yields a record even when that OLBG row's
  confidence is blank. The OLBG scraper writes `""` there, and the
  `is not None` test at ai_goalie.project.py:545 is passed by any matched
  value, NaN included. `Compare.Record` therefore keys on the match, not on
  the value.

## Model

| member | source | states |
|---|---|---|
| Tokens.MatchTokens | ai_goalie.project.py:476-486 | a missing pick has no tokens; every token is longer than two characters and made only of `a-z` and `0-9` |
| Tokens.StripStopwords | ai_goalie.project.py:482 | `re.sub(r"\b(fc\|utd\|...\|a\|an)\b", " ", name)`: every occurrence of a stop-word that stands as a whole word between `\b` boundaries becomes a space |
| Tokens.Clean | ai_goalie.project.py:484 | `re.sub(r"[^a-z0-9\s]", " ", name)`: same length as the text, and each character kept when it is a lower-case letter, a digit or white space and a space otherwise |
| Tokens.Removal | ai_goalie.project.py:482-484 | on lower-cased text without `_` and for any list of lower-case words, blanking their `\b`-delimited occurrences and splitting the cleaned text gives the cleaned words with those words dropped, in order |
| Tokens.StopwordRemoval | ai_goalie.project.py:482-484 | on lower-cased text without `_`, blanking the `\b`-delimited stop-words and splitting the cleaned text gives exactly the cleaned words with the stop-words dropped, in order |
| Tokens.TokensReference | ai_goalie.project.py:476-486 | for text without `_` the tokens are the cleaned lower-case words that are not stop-words and are longer than two |
| Tokens.NoStopwordToken | ai_goalie.project.py:482 | for a pick without `_`, no token is a stop-word, so "FC" or "United" alone never makes two picks match |
| Tokens.ExampleManchesterUnited | ai_goalie.project.py:476-486 | "Manchester United FC" has the tokens {"manchester"} |
| Tokens.ExampleAcLyon | ai_goalie.project.py:476-486 | "AC Lyon" has the tokens {"lyon"} |
| Compare.FirstMention | ai_goalie.project.py:526-533 | the index of the first row whose lower-cased pick contains some token as a substring; None exactly when no row does |
| Compare.NoTokensNoMention | ai_goalie.project.py:527 | an empty token set matches no row |
| Compare.NoTokensNoRecord | ai_goalie.project.py:537-545 | a primary row whose pick has no tokens yields no record |
| Compare.PickText | ai_goalie.project.py:503-504 | the `Pick_Text` column: `str(pick).lower()`, so a missing pick reads `nan` |
| Compare.Mentions | ai_goalie.project.py:526-538 | `any(token in x for token in ai_tokens)`: some token occurs as a substring of the pick text |
| Compare.AiConfidenceText | ai_goalie.project.py:518 | `str(row["Win %"]).replace("%", "").strip()` |
| Compare.Record | ai_goalie.project.py:517-554 | the record of one primary row: none when neither table mentions a token; otherwise its fixture, pick, cleaned Win % and truthy result, with the first mentioning OLBG row's confidence and the first mentioning Oddspedia row's confidence and odds |
| Compare.CompareRow | ai_goalie.project.py:510-554 | one pass of the loop: the record for the row's pick tokens |
| Compare.Comparisons | ai_goalie.project.py:507-554 | `comparison_data`: the records of the primary rows, in order |
| Compare.RecordIffMention | ai_goalie.project.py:545 | a record is written if and only if some OLBG row or some Oddspedia row mentions a token |
| Compare.FirstOlbgSupplies | ai_goalie.project.py:526-533 | the OLBG confidence is that of the first mentioning OLBG row, or None when no OLBG row mentions a token |
| Compare.FirstOddspediaSupplies | ai_goalie.project.py:537-542 | the Oddspedia confidence and the odds both come from the same first mentioning Oddspedia row, or are both None |
| Compare.ResultOf | ai_goalie.project.py:529-530 | the result is copied when it is truthy (a non-empty text, or NaN, which stays missing) and None for an empty text |
| Compare.RecordCopiesRow | ai_goalie.project.py:546-554 | a record carries the primary row's fixture, original pick, `%`-less stripped Win % and truthy result |
| Compare.CompareOne | ai_goalie.project.py:510-554 | the loop body, with its reset and reassigned variables, computes the record of the specification |
| Compare.CompareConfidenceSources | ai_goalie.project.py:502-569 | the loop's output, once converted, is the filter/map specification applied to the primary rows in order |
| Compare.ComparisonsInOrder | ai_goalie.project.py:510-554 | records follow primary row order, with at most one per primary row: comparing two tables in turn is comparing their concatenation |
| Compare.ComparisonsOfOne | ai_goalie.project.py:545-554 | a single primary row gives its own record or nothing |
| Compare.ConversionKeepsRecords | ai_goalie.project.py:567-569 | the numeric conversion drops no record and changes only the three confidence columns |
| Compare.ToNumber | ai_goalie.project.py:568-569 | `to_numeric(str(v).replace("%", "").strip(), errors="coerce")`, None when that is not a number |
| Compare.Convert | ai_goalie.project.py:567-569 | a record with its three confidence columns converted to numbers |
| Compare.MissingStaysMissing | ai_goalie.project.py:568-569 | a missing confidence (`str(nan)`) does not parse and stays missing |
| Compare.AiConfidenceNoPercent | ai_goalie.project.py:518 | the cleaned AI confidence holds no `%` |
| Compare.AiConfidenceClean | ai_goalie.project.py:567-569 | converting the cleaned AI confidence parses exactly the text the loop stored |
| Compare.ToNumberWholePercent | ai_goalie.project.py:568-569 | a whole percentage written with a `%`, as the AI Goalie page writes it, converts to that number |
| Compare.ToNumberDigits | ai_goalie.project.py:568-569 | a digit string, as the OLBG and Oddspedia scrapers store their confidences, converts to its value |
| Compare.SeventyTwoPercent | ai_goalie.project.py:568-569 | "72%" converts to 72 |
| AiGoalie.ScoreTotalOf | ai_goalie.project.py:89-90 | a score "h:a" of two digit strings totals the sum of their values |
| AiGoalie.ScoreTotal | ai_goalie.project.py:89-90 | `int(parts[0]) + int(parts[1])` for `score.split(":")`, None where fewer than two parts or a part that is not an integer makes it raise |
| AiGoalie.Fixture | ai_goalie.project.py:75 | the fixture text `f"{home} - {away}: {score}"`, built the same way for today's page at line 186 |
| AiGoalie.StrippedPick | ai_goalie.project.py:79-81 | the Pick column: the stripped underlined name, or "" when the lookup fails |
| AiGoalie.DayOf | ai_goalie.project.py:107-110 | `int(match_date.split()[-1])`, None for a date with no words or whose last word is not an integer |
| AiGoalie.WinValue | ai_goalie.project.py:125 | `float(win.replace("%", "").strip())`, None where `float()` raises |
| AiGoalie.WinAtLeast | ai_goalie.project.py:125-126 | the Win % test `win_val >= threshold`; a row whose value does not parse fails it, as the `except` skips it |
| AiGoalie.WinWholePercent | ai_goalie.project.py:125-126 | a Win % written as a whole number and `%` reads as that number, and the row reaches a threshold exactly when that number does |
| AiGoalie.KeptAtWholePercent | ai_goalie.project.py:122-129 | a row with a whole Win % is kept by the filter exactly when it is in the table and its number reaches the threshold |
| Numbers.ParseDecimalDigits | ai_goalie.project.py:125 | `float()` and `to_numeric` read a non-empty digit string as its value |
| Numbers.DecimalValue | ai_goalie.project.py:99 | the exact value of `whole.fraction` is at least its whole part |
| Numbers.ParseDecimalFraction | ai_goalie.project.py:99 | "digits.digits" reads as the whole part plus the fraction digits scaled down by ten per digit |
| Numbers.TwoAndAHalf | ai_goalie.project.py:99 | "2.5" reads as two and a half |
| Numbers.CleanPercentWhole | ai_goalie.project.py:125 | a whole number written with `%` reads back as that number once the `%` is removed and the text stripped |
| AiGoalie.KeepNumeral | ai_goalie.project.py:96 | `re.sub(r"[^\d.]", "", s)` is no longer than the input and holds only digits and points |
| AiGoalie.KeepNumeralFilter | ai_goalie.project.py:96 | the substitution keeps exactly the digits and points of the text, in their order: it equals the text filtered by "digit or point" |
| AiGoalie.KeepNumeralMembers | ai_goalie.project.py:96 | a character is in the result if and only if it is a digit or a point of the text |
| AiGoalie.GoalsLine | ai_goalie.project.py:100 | the goals line is ceil(xg) + 0.5, and so lies in [xg + 0.5, xg + 1.5) |
| AiGoalie.UnderLine | ai_goalie.project.py:101 | the match is under the line exactly when the total is at most ceil(xg) |
| AiGoalie.ExpectedGoals | ai_goalie.project.py:95-104 | no XG digits gives no XG, no line and no Under; otherwise XG is the parsed digits, the line is ceil(xg) + 0.5, and Under is set exactly when a total is known, true iff total <= ceil(xg); digits that do not parse fail the row |
| AiGoalie.ExpectedGoalsOf | ai_goalie.project.py:95-101 | XG text whose digits and points read as x gives XG x, the line ceil(x) + 0.5, and Under exactly when a total is known, true iff total <= ceil(x) |
| AiGoalie.PastRow | ai_goalie.project.py:66-117 | a past row is kept if and only if its score reads whenever it has a result, its XG digits parse, and its date ends in the requested day; a kept row carries the stripped pick, the total (exactly when it has a result, and then the score's), and the XG, line and Under of its XG text, with fixture, result and Win % from the columns |
| AiGoalie.TodayRow | ai_goalie.project.py:177-241 | a row of today's page is kept if and only if its score reads, its XG digits parse and its date ends in a number; a kept row has no result, the score's total, the stripped pick, and the XG, line and Under of its XG text |
| AiGoalie.PastAgreesWithToday | ai_goalie.project.py:87-117 | for a played match the past page keeps the row exactly when today's page would and the day matches, with the result filled in |
| AiGoalie.FilterByWin | ai_goalie.project.py:122-129 | keeps, in order, exactly the rows whose `%`-less stripped Win % parses and reaches the threshold |
| AiGoalie.AiGoalieGetPast | ai_goalie.project.py:66-129 | the output is the day's rows filtered at Win % >= 60; every kept row is on that day and at least 60 |
| AiGoalie.AiGoalieGet | ai_goalie.project.py:177-256 | the full table is every row built; the clean table keeps exactly its rows with Win % >= 55 |
| AiGoalie.StricterThreshold | ai_goalie.project.py:249-256 | filtering at 55 and then at 60 equals filtering at 60 |
| Oddspedia.CheckExcluded | ai_goalie.project.py:363-370 | the flag loop sets the flag exactly when some exclusion keyword occurs in the pick |
| Oddspedia.Excluded | ai_goalie.project.py:343-367 | some exclusion keyword ("Yes", "Over", "Under", "-", "+", "Draw") occurs in the pick, case-sensitively |
| Oddspedia.CleanPick | ai_goalie.project.py:358 | the stripped meta text with every "Full Time Result:" removed, stripped again |
| Oddspedia.ConfidenceText | ai_goalie.project.py:385-386 | `confidence_text.strip().replace("%", "")` |
| Oddspedia.TimeText | ai_goalie.project.py:372-378 | `" ".join(time.split())` for a found time element, and "" when the lookup fails |
| Oddspedia.Tip | ai_goalie.project.py:352-391 | the row of a tip block: dropped when its pick is excluded or its `%`-less confidence is not an integer of at least 60, otherwise fixture "home vs away", pick, competition, time, tip amounts, confidence and odds |
| Oddspedia.HyphenExcluded | ai_goalie.project.py:343 | any pick containing `-` is skipped |
| Oddspedia.TipKept | ai_goalie.project.py:358-391 | a tip is kept iff its label-free pick has no keyword and its `%`-less confidence reads as an integer >= 60; the row carries that pick, confidence, fixture and odds |
| Oddspedia.ReadTip | ai_goalie.project.py:346-395 | the loop body gives the row of the specification |
| Oddspedia.OddspediaGet | ai_goalie.project.py:345-395 | the output is the filter/map specification over the tip blocks, in page order |
| Oddspedia.KeptTips | ai_goalie.project.py:386-391 | every kept tip has no exclusion keyword and an integer confidence of at least 60 |
| Olbg.SearchFromLeftmost | ai_goalie.project.py:438 | the search returns the group of the leftmost match of `(\d+)%`, and None when there is none |
| Olbg.PercentNumberSpec | ai_goalie.project.py:438 | no group exactly when no `%` follows a digit; otherwise the group is the whole digit run before the first `%` that follows a digit |
| Olbg.PercentNumber | ai_goalie.project.py:438 | `re.search(r"(\d+)%", style).group(1)`: the digit group of the leftmost match, or None when there is none |
| Olbg.ConfidenceEmpty | ai_goalie.project.py:436-440 | the confidence is "" exactly when the style is missing or no `%` in it follows a digit |
| Olbg.ConfidenceWritten | ai_goalie.project.py:438 | a non-empty confidence is a digit string that occurs in the style followed by `%` |
| Olbg.Confidence | ai_goalie.project.py:436-440 | the `(\d+)%` group of the style, or "" when the style is missing, empty or holds no match |
| Olbg.Row | ai_goalie.project.py:430-447 | the stripped fixture, pick, competition and win info, the unstripped time, the confidence, and the stripped comments or "0" without them |
| Olbg.OlbgGet | ai_goalie.project.py:428-447 | one row per tip block, in page order |
| Html.CellText | day_gen.py:29-30 | Fixture and Pick show "N/A" only when the column is absent; a missing value shows as `nan` |
| Html.TableRowStart | day_gen.py:50-58 | helper fact used by `DayGen.RenderedStart` and `GithubPages.RowsStart`: every rendered row starts with a line break and so is never empty |
| Html.TableRow | day_gen.py:50-58 | the row template: the row opening line, each cell on its own indented line, then the closing tag |
| Html.FormatConfidence | day_gen.py:33-44 | `format_confidence` (and `format_conf`, github.py:35-39): the grey N/A cell for a missing or blank value, otherwise the blue cell showing the stripped value with `%` appended unless it already ends in one |
| Html.FormatOdds | github.py:40-44 | `format_odds`: the grey N/A cell for a missing or blank value, otherwise the green cell showing the value as given |
| Html.FormatConfidenceNa | day_gen.py:35-36 | the confidence cell is the N/A cell if and only if the value is missing or blank |
| Html.DisplayPercent | day_gen.py:39-42 | the shown value is the stripped value, with a `%` added only when it does not already end in one |
| Html.FormatConfidenceIdempotent | day_gen.py:39-44 | formatting the shown value again gives the same cell |
| Html.ValueCellIsNotNa | github.py:37-44 | a confidence or odds cell with a value never equals the N/A cell |
| Html.FormatOddsNa | github.py:40-44 | the odds cell is N/A if and only if the value is missing or blank |
| Html.SpanOfPlaceholder | day_gen.py:145 | the placeholder row's column span reads back as the span it was written with |
| Html.Placeholder | day_gen.py:145 | the one-row stand-in for an empty table body: one cell spanning the given number of columns and showing the message |
| Html.PlaceholderStart | day_gen.py:145 | helper fact used by `DayGen.PlaceholderIffNoneComplete` and `GithubPages.PlaceholderIffEmpty`: the placeholder starts with `<`, while every rendered row starts with a line break, so the two are never confused |
| DayGen.DayTableBody | day_gen.py:94-104 | the rows loop and join give the rows that have every required column, in order, or the placeholder when there are none |
| DayGen.HasRequired | day_gen.py:98 | the record has all five required columns: Fixture, Pick, AI_Confidence, OLBG_Confidence and Oddspedia_Confidence |
| DayGen.CreateRow | day_gen.py:26-58 | `create_html_table_row`: the row template filled with the record's five cells |
| DayGen.RowCells | day_gen.py:46-57 | the row's five cells: fixture, pick and the three formatted confidences |
| DayGen.Rendered | day_gen.py:98-101 | a record is rendered when it has every required column and skipped otherwise |
| DayGen.TableBody | day_gen.py:104 | the rendered rows joined, or the placeholder when they join to nothing |
| DayGen.ColumnsAgree | day_gen.py:46-57 | helper fact, a length check: each row has five cells, one per header column and per required column, matching the placeholder's span |
| DayGen.RowCellsText | day_gen.py:50-53 | the first two cells show the Fixture and Pick values |
| DayGen.ConfidenceCellNa | day_gen.py:46-48 | each of the three confidence cells is `format_confidence` of its column's value, and is N/A exactly when the column is absent, missing or blank |
| DayGen.RenderedStart | day_gen.py:96-99 | every rendered row is non-empty and starts with a line break |
| DayGen.PlaceholderIffNoneComplete | day_gen.py:145 | the placeholder appears if and only if no record has every required column, and it spans the five header columns |
| DayGen.SameColumnsAllOrNone | day_gen.py:96-101 | with all records sharing the same columns, either every record is rendered in order or none is |
| GithubPages.ColumnsAgree | github.py:45-55 | helper fact, a length check: each row has seven cells, one per header column |
| GithubPages.RowCells | github.py:45-53 | the seven cells: the daily report's fixture, pick and three confidences, then the odds and the result shown as given |
| GithubPages.CreateRow | github.py:32-55 | `create_html_table_row`: the row template filled with the record's seven cells |
| GithubPages.SharesDailyCells | github.py:45-51 | the first five cells are exactly the daily report's row |
| GithubPages.ValueCells | github.py:52-53 | the odds and result cells are N/A exactly for a missing or blank value and otherwise show the value unstripped, with no `%` |
| GithubPages.RowsStart | github.py:45-46 | every rendered row starts with a line break |
| GithubPages.RowsHtml | github.py:72 | every record rendered with the seven-cell template and joined in order, with no column check |
| GithubPages.TableBodyAsWritten | github.py:103 | the joined rows, or when there are none the placeholder spanning 5 columns, as written |
| GithubPages.TableBody | github.py:93-103 | the joined rows, or when there are none the placeholder spanning every header column |
| GithubPages.PlaceholderIffEmpty | github.py:72 | every record is rendered, with no column check; the placeholder appears if and only if there are no records |
| GithubPages.AsWrittenSpanShort | github.py:103 | as written, the empty table's placeholder spans 5 columns, fewer than the 7 header columns |
| GithubPages.PlaceholderSpansRow | github.py:93-103 | with the span taken from the header, the placeholder spans exactly the cells of a row |
| GithubPages.DayFolderRoundTrip | github.py:15-17 | the folder name splits at its dashes into three parts that read back as the year, month and day |
| GithubPages.DayTwoDigits | github.py:16 | a day below 100 is written with exactly two digits |
| GithubPages.DayFolderInjective | github.py:15-17 | different days of a month get different folder names |
| GithubPages.MonthPrefix | github.py:16 | `strftime("%Y-%m")`: the year in four digits, a dash, the month in two |
| GithubPages.DayFolder | github.py:15-17 | the month's prefix, a dash and the day padded to two digits |

## Left out

- Browser automation: the Selenium navigation, cookies, waits, and the
  element lookups. A lookup that fails skips the row. Each scraped row is
  an input record of texts, and a missing optional element is `None`.
- The Excel round trip: `read_excel`, `to_excel`, `na_values`, and the
  COUNTIF/AVERAGE formula cells. Tables are in-memory sequences of records,
  and a missing cell is `None`.
- The HTML page templates around the table bodies, the file writes and
  existence checks, and the git `subprocess` calls.
- index_gen.py, olbg.py, `generate_index_file` and `get_month_info` are not
  part of this model. olbg.py repeats the OLBG confidence expression
  modelled here.
- The clock: today's year, month and day are parameters.
  `GithubPages.MonthPrefix` assumes `%Y` writes four digits.
- The global `counts` tallies and the debugging `testas` flag.
- `df_ai.dropna(subset=['Match_Tokens'])` is left out. It changes nothing,
  because every token set is a value.
- Unicode: `lower()`, `\d`, `\w`, `\b` and `\s` are modelled on ASCII
  letters and digits, plus Python's white-space characters.
- Numbers: `float()` and `pd.to_numeric` read an optional sign, digits and
  an optional fraction, as exact decimals. Exponents, `inf`, `nan`,
  underscores and binary rounding are not modelled. `int()` does not accept
  underscores.
- Tokens.MatchTokens: tokens are proved free of stop-words only for picks
  without `_`. With `_`, `\b` sees `_` as a word character.
- When any of the three sheets is missing, `compare_confidence_sources`
  returns an empty table (ai_goalie.project.py:494-499). The model starts
  from the three loaded tables. The OLBG and Oddspedia scrapers write their
  sheet only when they collected rows (ai_goalie.project.py:398 and 453), so
  a day on which either site yields no tip is that missing-file case.
- Compare.ResultOf: a missing Result is kept as missing rather than as the
  NaN object the source copies. Both are written as an empty cell.

## Findings

| source | as written | input that shows it | evidently intended | confidence | as-written member | corrected member |
|---|---|---|---|---|---|---|
| github.py:103 | the empty-table placeholder row is written with `colspan="5"` | a combined table with no records: the 7-column table gets a placeholder spanning 5 columns | a span of 7, the number of header columns (github.py:93-99) and of cells per row (github.py:45-55), as day_gen.py:145 spans its 5 columns | not executed | GithubPages.AsWrittenSpanShort | GithubPages.PlaceholderSpansRow |
