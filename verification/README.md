# Persona evaluator: a Dafny model of its text-processing core

The persona evaluator is a small web application. It crawls a company's
website and reads its PDFs. It asks a language model for customer
segments, generates personas for each segment, and has every persona
score every business idea. It then renders a PDF report. Around the
model calls and the PDF plumbing sits a core of deterministic text
processing, and this project models that core:

- the bounded, same-host, breadth-first crawl that gathers the website's
  text (`crawl.dfy`);
- the parsers of the model's replies in the application: the evaluation
  parser (`evaluation.dfy`) and the segment parser (`segments.dfy`);
- the aggregation of the evaluations into one row per business idea
  (`aggregation.dfy`);
- the parsers of the report: the persona names (`persona_names.dfy`), the
  list of new potential personas (`potential_personas.dfy`) and the
  multi-axis strategy evaluation (`strategy_eval.dfy`);
- the text of a persona card (`persona_card.dfy`) and the cells of the
  per-idea score tables (`score_table.dfy`);
- the Python built-ins the core relies on (`text.dfy`). These are
  `str.strip`, `str.split`, `str.splitlines`, `str.join`, `str.replace`,
  `str.startswith`, `in`, `str(int)`, the regex classes `\s` and `\d`, and
  the first-appearance order of `dict`/`pandas.unique`.

Regular expressions are modelled as character scanners that follow
Python's backtracking order. Each scanner comes with a description of
what a match of the pattern is and a proof that the scanner reports the
match Python's `re` reports. `html.escape` is modelled as Python defines
it, with `quote=True`. The network, the language model and the HTML
parser are function parameters.

The evaluation parser is modelled as written, including two behaviours
that look unintended. A reply that copies the prompt's output format with
its `- ` markers gives neither a score nor a reason, because only lines
that start with the label are read. A score line that keeps the prompt's
`（1〜5）` gets the score `1`, because the parser takes the first digit run
of the line. `Evaluation.MarkedFormatUnread` and `Evaluation.RangeLabelScore`
state both. The model does not guess a corrected parser.

## Model

| member | source | states |
|---|---|---|
| Crawl.FetchAllTexts | app.py:59-81 | at most `max_pages` pages are fetched (none when it is not positive), none twice, all on the seed's host, the seed first; the queue is first-in first-out, so the fetch order is a prefix of the discovery order and each page is the one the discovery order held at its place when it was fetched; the crawl stops only at the cap or when every same-host link of every fetched page has been fetched; the result is the non-empty page texts, cut to 5000 characters, joined with a blank line in fetch order |
| Crawl.EnqueueLinks | app.py:74-78 | the link loop appends exactly the resolved same-host URLs that are neither visited nor queued, in document order |
| Crawl.VisitNext | app.py:62-78 | one iteration pops the queue head, which is never a visited page, fetches it, collects its text and queues its links, keeping the crawl invariant |
| Crawl.OfferAll | app.py:74-78 | offering a page's links only appends to the queue, keeps it free of duplicates and on the seed's host, adds every offered same-host URL, and adds nothing that was not offered |
| Crawl.Discovered | app.py:59-78 | the discovery order starts with the seed, has no duplicates and stays on the seed's host |
| Crawl.DiscoveredGrows | app.py:61-78 | fetching more pages only appends to the discovery order |
| Crawl.DiscoveredMeaning | app.py:74-78 | every same-host link of a fetched page is discovered, and every discovered URL but the seed is a link of a fetched page |
| Crawl.FoundBefore | app.py:62-78 | in a first-in first-out crawl each page but the seed is a link of a page fetched before it |
| Crawl.PageTextsMeaning | app.py:67-69 | the collected texts are the texts of exactly the pages with text, in fetch order, each cut to 5000 characters |
| Crawl.Truncate | app.py:69 | `text[:5000]` is the prefix of the text that is 5000 characters long, or the whole text when it is no longer than that |
| Evaluation.ParseEvaluationOutput | app.py:185-210 | lines are stripped and blank ones dropped; the score is empty or digits, empty exactly when no line starts with 評価スコア and holds a digit, and else the first digit run of the last such line; with no 理由 line the reason is empty; when the last 理由 line has a non-empty remainder after its label, the reason is that remainder; otherwise it is every line from the first 理由 line on, labels removed, joined by newlines; no text gives two empty strings |
| Evaluation.StripReasonLabelMeaning | app.py:195 | `re.sub(r'^[-\s]*理由[:：]?\s*', '', l)` leaves a line unchanged when no prefix matches the pattern, and else removes the longest matching prefix |
| Segments.ParseSegments | app.py:252-258 | the loop over the stripped reply's lines reads them group by group: one segment per line holding セグメント名：, in order, named after that line with the label removed and stripped, with the reason of the last 理由： line before the next segment, or empty; lines before the first segment are ignored |
| Segments.ParseBlocksGrouped | app.py:253-258 | the parsing loop, from any list of segments parsed so far, gives that list with its last reason updated by the leading reason lines, followed by the groups |
| Segments.ReasonLineEffect | app.py:257-258 | a 理由： line changes only the reason of the last segment, and is ignored when there is no segment yet |
| Segments.NamesOneLine | app.py:253-256 | no parsed segment name contains a newline |
| Segments.SegmentsTextRoundTrip | app.py:260 | splitting the stored segment list at newlines gives back the parsed names |
| Evaluation.MarkedFormatUnread | app.py:185-210 | a reply in the output format the prompt asks for (app.py:174-176), with its `- ` markers kept, gives an empty score and an empty reason |
| Evaluation.RangeLabelScore | app.py:190-193 | a score line that keeps the prompt's `（1〜5）` gets the score `1`, whatever answer follows it |
| Aggregation.AggregateRows | app.py:313-324 | with no persona there is no row; otherwise there is one row per distinct idea name, in order of first appearance, equal to the reference row of the last idea of that name: each persona's columns hold the parsed reply to that persona's call for that idea's place in the list |
| Aggregation.RecordPersonasMeaning | app.py:313-323 | the dict built by the two loops has the distinct idea names as keys in first-appearance order, and each row is the reference row |
| Aggregation.IdeaRowColumns | app.py:321-323 | a row has exactly the columns 事業アイデア名 and ペルソナ{i}スコア, ペルソナ{i}理由 for the personas `i` from 1; the name column holds the idea's name, and each persona's columns hold its parsed evaluation |
| Aggregation.KeysDistinct | app.py:321-323 | the name column, the score columns and the reason columns never clash, and different persona numbers give different columns |
| Aggregation.ScoresAreDigits | app.py:320-322 | every score cell is empty or a run of digits |
| PersonaNames.ExtractPersonaNames | generate_pdf_report.py:43-61 | one name per persona, in the same order; the persona at place `i` is numbered `i + 1` |
| PersonaNames.PersonaNameMeaning | generate_pdf_report.py:47-60 | when some label's pattern is found, the name is the stripped group of the match `re.search` reports for the first such label, and it is stripped and holds no newline, `(`, `（` or `-`; otherwise, when the first line matches the colon pattern, the name is the non-empty group of the match `re.match` reports, free of whitespace, `（`, `(` and `-`; otherwise it is `ペルソナ` followed by the persona's 1-based number |
| PersonaNames.LabelledNameMeaning | generate_pdf_report.py:44-54 | the label loop finds a name exactly when some label's pattern is found, and then from the first such label in the order given, through the match `re.search` reports |
| PersonaNames.LabelledNameShape | generate_pdf_report.py:50-52 | a labelled name is stripped and holds no newline, `(`, `（` or `-` |
| PersonaNames.SearchLabelMeaning | generate_pdf_report.py:50 | the search finds the leftmost match of `label[:：]\s*([^\n\(（\-]+)` and, at that place, the one backtracking tries first (longest `\s*`, then longest group); it finds nothing only when there is no match |
| PersonaNames.LabelMatchAtMeaning | generate_pdf_report.py:50 | at one place, the scanner finds the match backtracking tries first, and nothing only when no match starts there |
| PersonaNames.LineMatchBeforeMeaning | generate_pdf_report.py:56 | on the first line, the scanner finds the match `re.match(r".*[:：]\s*([^\s（\(\-]+)")` reports: the colon as far right as a match allows, then the preferred group; nothing only when there is no match |
| PersonaNames.LineNameShape | generate_pdf_report.py:56-58 | a first-line name is non-empty, unchanged by `strip()`, and holds no whitespace, `（`, `(` or `-` |
| PersonaNames.FirstLine | generate_pdf_report.py:56 | `persona.split('\n')[0]` holds no newline |
| Text.FirstResult | generate_pdf_report.py:49-54 | the loop stops at the first label that gives a result: every earlier label gives none, and no result means no label gives one |
| PotentialPersonas.ParsePotentialPersonas | generate_pdf_report.py:105-114 | no text gives no persona; every persona text returned is stripped, contains `名前` and is longer than 8 characters |
| PotentialPersonas.ParsePotentialPersonasMeaning | generate_pdf_report.py:108-114 | the personas are exactly the pieces of the split that contain `名前` and are longer than 8 characters once stripped, each stripped, in the order of the pieces |
| PotentialPersonas.KeptPieces | generate_pdf_report.py:111-114 | the comprehension keeps exactly the kept pieces, stripped, in order |
| PotentialPersonas.CutsMeaning | generate_pdf_report.py:108-110 | every cut `re.split` makes is a match of `\n\s*(?=...)`, and every place where a match can start lies inside a cut |
| PotentialPersonas.BetweenRejoin | generate_pdf_report.py:108-110 | putting the separators back between the pieces gives the text back |
| PotentialPersonas.SplitPointMeaning | generate_pdf_report.py:109 | a separator can start at a line break exactly when a list marker follows the whitespace after it, and it then ends where that whitespace ends |
| PotentialPersonas.MarkerNotSpace | generate_pdf_report.py:109 | every list marker of the lookahead begins with a character that is not whitespace |
| StrategyEval.ParseStrategyEvalBlockMeaning | generate_pdf_report.py:119-129 | the rows are the rows of the lines that give one, at most one per line, in the order of the lines, and every line that gives a row contributes it |
| StrategyEval.LineRowMeaning | generate_pdf_report.py:120-128 | a line gives a row only when, stripped, it is non-blank, mentions one of the five axes, and the pattern matches it; the row is the one every reported match gives; a non-blank line that mentions an axis and that the pattern can match gives a row |
| StrategyEval.ReportedMatchUnique | generate_pdf_report.py:125 | only one match of the row pattern is the one `re.match` reports, so the axis, score and reason of a row are fixed |
| StrategyEval.GlueLongest | generate_pdf_report.py:125 | the scanner's `点?[:：]?\s*` is the longest glue that can follow the digits |
| StrategyEval.LineRowShape | generate_pdf_report.py:125-128 | the axis cell is non-empty without whitespace, the score cell is a digit run followed by `点`, and the reason is the end of the stripped line |
| StrategyEval.MatchPartsMeaning | generate_pdf_report.py:125 | the scanner finds the match of `[-\s]*([^\s]+)\s*(\d+)点?[:：]?\s*(.*)` that `re.match` reports: group 1 starts as late and then ends as late as a match allows, `\d+` takes the whole digit run and the glue is the longest; it finds none only when the pattern cannot match |
| StrategyEval.TryAxisStartMeaning | generate_pdf_report.py:125 | trying group 1 from a start down finds the match tried first among those starting there or earlier, and nothing only when there is none |
| StrategyEval.TryAxisEndMeaning | generate_pdf_report.py:125 | trying group 1 at one start, from an end down, finds the match with the latest end, and nothing only when there is none |
| PersonaCard.ShownLinesMeaning | generate_pdf_report.py:71-73 | the card shows the non-blank lines, unstripped and in order; the only non-blank line it may leave out is the last one, and it leaves it out exactly when that line strips to `#` |
| PersonaCard.KeptLast | generate_pdf_report.py:72 | the last of the kept lines is the last non-blank line of the text |
| PersonaCard.FormatLineRoundTrip | generate_pdf_report.py:75-80 | a formatted line can be read back: a line with a colon gives its stripped head and tail, split at the first colon; any other line gives itself |
| PersonaCard.HeadHasNoColon | generate_pdf_report.py:76-77 | the head of `line.split(":", 1)` holds no colon, stripped |
| PersonaCard.EscapeRoundTrip | generate_pdf_report.py:78-80 | unescaping what `html.escape` writes gives the text back |
| PersonaCard.EscapeMarkupFree | generate_pdf_report.py:78-80 | escaped text holds no `<`, `>`, `"` or `'`, and holds a colon exactly when the text does |
| PersonaCard.FormatLineNoBreakTag | generate_pdf_report.py:75-81 | no formatted line holds `<br/>` |
| PersonaCard.CardContentMeaning | generate_pdf_report.py:71-81 | the card text is the shown lines, formatted, joined with `<br/>`; each piece reads back to what the card shows of its line and none holds `<br/>` |
| ScoreTable.ScoreCell | generate_pdf_report.py:185-187 | a value without a digit is shown as it is; otherwise the cell is what `re.search(r"(\d{1,3})")` captures (one to three digits, no digit before them, no fourth digit it could take) followed by `点` |
| ScoreTable.ScoreGroupUnique | generate_pdf_report.py:186 | the score pattern captures in one way only |
| ScoreTable.ScoreCellOfDigits | generate_pdf_report.py:185-187 | a parsed score of at most three digits is shown followed by `点`, and an empty score stays empty |
| ScoreTable.ScoreCellOfNumber | generate_pdf_report.py:185-187 | `str(n)` of a number below 1000 is shown as itself followed by `点` |
| ScoreTable.ReasonCell | generate_pdf_report.py:188-193 | the reason cell holds no newline |
| ScoreTable.ReasonCellMeaning | generate_pdf_report.py:188-193 | the reason cell is the lines of the reason, without its `理由` label, joined with `<br/>` |
| Text.ReplaceCharAsJoin | generate_pdf_report.py:193 | replacing one character is splitting at it and joining with the replacement |
| ScoreTable.PersonaLabelMeaning | generate_pdf_report.py:184 | with the names extracted from the personas, persona `i` is shown under the name the extractor gives it, and past the last persona under the name the extractor gives an empty persona there, `ペルソナ{i}` |
| ScoreTable.EmptyPersonaName | generate_pdf_report.py:55-60 | an empty persona gets the numbered fallback name |
| ScoreTable.ScoreTables | generate_pdf_report.py:176-181 | one table per idea name of the frame, no name twice, in order of first appearance, each under the header ペルソナ名, スコア, 理由 |
| ScoreTable.IdeaRowsMeaning | generate_pdf_report.py:180-194 | the data rows of an idea's table come from exactly the records of that idea, in frame order; each record gives `persona_count` rows (none when it is not positive), the row of persona `i` holding its name, score cell and reason cell |
| ScoreTable.RecordsMeaning | generate_pdf_report.py:181 | the filter keeps exactly the records of the idea, in frame order |

## Left out

- The Streamlit interface, the login check and the session state. The
  segment parser and the aggregation are lifted out of it as functions.
- The OpenAI prompts and calls. The replies are a parameter, `evaluate`.
  It names each call of `evaluate_persona_score` by the persona's number
  and the idea's place in the list, and also receives the prompt's inputs.
  So two calls with the same prompt may get different replies.
- HTTP fetching and the BeautifulSoup text and link extraction. A page's
  visible text, its list of `href`s, `urljoin` and `urlparse(...).netloc`
  are parameters of the crawl. A failed fetch is a page with no text or
  no links.
- pdfplumber text extraction, which is a foreign library.
- `\d` is modelled as the ASCII digits and the fullwidth digits ０-９.
  Python's `\d` also matches the decimal digits of other scripts.
- Crawl.FetchAllTexts: the `continue` taken for an already visited page
  is unreachable, because a queued URL is never a visited one. The model
  proves this rather than modelling the branch.
- ReportLab: the document, fonts, styles, colours, images, table layout
  and the multi-axis and potential-persona sections built around the
  parsers. The model stops at the card's paragraph text and the tables'
  cell strings. The `<b>` markup around the name and score cells
  (generate_pdf_report.py:191-192) is layout.
- The report date (`datetime`).
- pandas: a frame is a sequence of rows, each a map from column names to
  strings. `row.get(key, "")` reads a missing key as the empty string.
  The NaN of a missing pandas cell, which `str` shows as `nan`, is not
  modelled; the aggregation gives every row the same columns.
- PersonaCard.CardContentMeaning: it proves that no piece holds `<br/>`,
  which is what keeps the pieces apart. There is no function that splits
  the card text back into its pieces.
- ScoreTable.IdeaRowsMeaning: `persona_count` is a parameter. The report
  uses 4 by default, whatever the number of personas.
