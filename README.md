# UTRanked core in Dafny

This project models two parts of UTRanked, a UT Austin student-ranking site.

**The CSV simplifier** (`data/process-csv.js`, module `CsvSimplify`, file
`csv_simplify.dfy`) has two loops:

- `parseCSVLine` splits a row on commas that are outside double quotes.
  It drops the quote characters and strips one leading and one trailing quote
  from each field. Rows with at least nine fields are projected to a
  `SimplifiedRecord` from columns 0, 1, 4 and 5. Other rows give `null`.
- The row loop of `processCombinedFile` trims each line. It skips blank lines
  and lines that start with `"studentName"`, and lines the splitter rejects.
  It keeps only the first record seen for each student name, using a set of
  names already processed.

Both loops are methods. Each is proved equal to a specification function:

- `ParseLine` is proved equal to `LineRecord`, a fold of single-character steps.
- `SimplifyLines` is proved equal to `Simplified`.

Lemmas then relate these functions to independent definitions:

- For the splitter: quote parity, the count of unquoted commas, and the kept
  characters. There is also a round trip with the collector's quoted row
  format.
- For the row loop: `FirstOccurrences`, a reference deduplication over the
  accepted rows.

**The voting page** (`src/pages/VotingPage.tsx`, module `Voting`, file
`voting.dfy`) is modelled as follows:

- The page's state slots are the fields of the class `VotingPage`.
- The page's effect and click handlers are its methods, and each handler is
  one atomic transition.
- The category filter and the Elo update are functions: `InCategory` and
  `Rate`.
- `Valid()` is the invariant every transition keeps. The button for the next
  comparison is shown exactly while a vote is recorded. The list holds the
  students of the selected category, in catalog order, with their current
  ratings. With two students or more, a pair of students with different ids
  is on display.
- The random draw of `handleNext` is a nondeterministic choice of two
  positions whose ids differ.

`wrappers.dfy` holds the `Option` type used for `null` results and nullable
state slots.

The comment at `data/process-csv.js:54` says header rows have `studentName`
in quotes as their first field. The code at line 55 skips every trimmed line
that starts with `"studentName"`, whatever follows. The model follows the code
(`Row`).

## Model

| member | source | states |
|---|---|---|
| CsvSimplify.ParseLine | data/process-csv.js:99-138 | The character loop returns exactly `LineRecord(line)`: `None` for an empty line or a line without a comma, else the cleaned fields 0, 1, 4 and 5 when there are at least nine fields. |
| CsvSimplify.StripQuotes | data/process-csv.js:125 | A field wrapped in quotes loses exactly its first and last character. A field that neither starts nor ends with a quote, or has no quote at all, is unchanged. Stripping never lengthens a field. |
| CsvSimplify.ScanInvariant | data/process-csv.js:108-119 | After any prefix, the scanner is between quotes iff it has seen an odd number of quotes. Its pushed fields number the unquoted commas seen. Its fields hold, in order, every character that is neither a quote nor an unquoted comma. |
| CsvSimplify.ScanFields | data/process-csv.js:108-119 | After any prefix, pushed field `k` and the field being built are exactly `FieldOf(prefix, k)`: the kept characters with `k` separators before them. |
| CsvSimplify.FieldCount | data/process-csv.js:108-122 | A line splits into one more field than it has unquoted commas. Field `k` is exactly the line's kept characters with `k` separators before them, so a comma between quotes stays in its field. Joined together, the fields are exactly the kept characters. |
| CsvSimplify.SplitFieldsQuoteFree | data/process-csv.js:108-125 | No split field contains a quote character, so the quote stripping changes no field. |
| CsvSimplify.LineRecordSpec | data/process-csv.js:99-138 | A line yields a record iff it has at least eight unquoted commas. The record is split fields 0, 1, 4 and 5. |
| CsvSimplify.RoundTrip | data/process-csv.js:103-122 | Splitting a row of quote-free fields, each written in quotes and joined with commas, gives back exactly those fields, including commas inside them. |
| CsvSimplify.RoundTripRecord | data/process-csv.js:99-138 | Such a row with at least nine fields yields the record of its fields 0, 1, 4 and 5. |
| CsvSimplify.TrimStartSpec | data/process-csv.js:49 | The result is a suffix of the input. Everything removed is white space, and the result does not start with white space. |
| CsvSimplify.TrimEndSpec | data/process-csv.js:49 | The result is a prefix of the input. Everything removed is white space, and the result does not end with white space. |
| CsvSimplify.TrimSpec | data/process-csv.js:49 | The trimmed line is a slice of the line with only white space around it. It neither starts nor ends with white space. It is empty iff the whole line is white space. |
| CsvSimplify.RowSpec | data/process-csv.js:48-61 | A line contributes a row iff, once trimmed, it does not start with the header token and has at least eight unquoted commas. |
| CsvSimplify.SimplifyLines | data/process-csv.js:45-76 | The row loop, with its set of names already seen, returns exactly `Simplified(lines)`. |
| CsvSimplify.PushedDedup | data/process-csv.js:58-76 | The seen-set loop outputs the first occurrence of each name among the accepted rows (`FirstOccurrences`). A rejected line marks no name as seen. |
| CsvSimplify.FirstOccurrencesNames | data/process-csv.js:65-75 | Deduplication loses no name: the output names are exactly the input names. |
| CsvSimplify.FirstOccurrencesUnique | data/process-csv.js:65-67 | No two kept records share a student name. |
| CsvSimplify.FirstSource | data/process-csv.js:65-75 | Every kept record is a row of the input that no earlier row shares a name with. |
| CsvSimplify.FirstOccurrencesOrder | data/process-csv.js:69-75 | The kept records are a subsequence of the input rows, in the same order. |
| CsvSimplify.PushedNames | data/process-csv.js:58-76 | Every name the splitter accepts appears in the output, and no other name. |
| CsvSimplify.PushedUnique | data/process-csv.js:65-67 | The output never holds two records with the same student name. |
| CsvSimplify.PushedFirstWins | data/process-csv.js:65-75 | Every output record is the first accepted row with its name. |
| CsvSimplify.PushedOrder | data/process-csv.js:69-75 | The output keeps the order of the rows it comes from, and is no longer than the accepted rows. |
| CsvSimplify.AcceptedBound | data/process-csv.js:48-61 | No more rows are accepted than there are non-blank lines. |
| CsvSimplify.SimplifiedBound | data/process-csv.js:48-76 | The output has no more records than the file has non-blank lines. |
| CsvSimplify.RejectedLineIgnored | data/process-csv.js:58-67 | Removing a line that the trim, header or splitter checks reject leaves the output unchanged. |
| Voting.InCategorySpec | src/pages/VotingPage.tsx:70 | The filter keeps exactly the students of the category: every kept student is from the list and in the category, and every such student is kept. It is no longer than the list. |
| Voting.InCategoryAppend | src/pages/VotingPage.tsx:70 | Filtering distributes over concatenation, so it keeps the relative order of the catalog. |
| Voting.InCategoryDistinct | src/pages/VotingPage.tsx:70 | Filtering a list with distinct ids gives a list with distinct ids. |
| Voting.MockIdsDistinct | src/pages/VotingPage.tsx:22-59 | The four mock students have distinct ids. |
| Voting.Rate | src/pages/VotingPage.tsx:87-95 | A vote keeps the list's length, ids and every field but the rating. The winner gains 32. Every other student of the list, not only the opponent, loses 32. |
| Voting.RateTotal | src/pages/VotingPage.tsx:87-95 | The total rating changes by 32 times (twice the winner's count minus the list length). A vote is zero-sum only in a list of two. |
| Voting.SameExceptEloFiltered | src/pages/VotingPage.tsx:69-71 | A list equal to the filtered catalog up to ratings has distinct ids, and holds only students of the category. |
| Voting.PairIffTwo | src/pages/VotingPage.tsx:110-115 | A list with distinct ids offers two students with different ids iff it has at least two students, so the draw loop can end exactly then. |
| Voting.PickPair | src/pages/VotingPage.tsx:110-115 | The draw ends with two positions of the list whose students have different ids. |
| Voting.VotingPage.constructor | src/pages/VotingPage.tsx:61-80 | The initial slots are followed by the first run of the effect. The page is valid, lists the "Computer Science" students, shows the first two, and has no vote recorded. |
| Voting.VotingPage.ApplyCategory | src/pages/VotingPage.tsx:69-80 | The list becomes the filtered catalog. With two students or more, the pair becomes the first two and the vote is cleared. Otherwise the pair, vote and button are left as they were. The invariant is restored. |
| Voting.VotingPage.SelectCategory | src/pages/VotingPage.tsx:195 | Choosing a category from the selector runs the effect only when the value changes. The invariant is kept. |
| Voting.VotingPage.Compare | src/pages/VotingPage.tsx:82-96 | A click with a vote already recorded changes nothing. Otherwise it records the winner, shows the button and rates the whole list with `Rate`. The pair is kept, and so is the invariant. |
| Voting.VotingPage.Equal | src/pages/VotingPage.tsx:98-102 | A tie click records -1 and shows the button, unless a vote is already recorded. Ratings, list and pair are unchanged, and the invariant is kept. |
| Voting.VotingPage.Next | src/pages/VotingPage.tsx:104-119 | With an empty list nothing changes. Otherwise the vote is cleared, the button hidden, and two students of the list with different ids are shown. The invariant is kept. A list of one student is excluded (see Findings). |
| Voting.VotingPage.NextChecked | src/pages/VotingPage.tsx:104-119 | The button with the guard it evidently needs: with fewer than two students nothing changes. Otherwise it acts as `Next`. It is defined on every valid page. |
| Voting.DefaultPair | src/pages/VotingPage.tsx:22-70 | The default category lists Alex Thompson and Sarah Chen, in that order. |
| Voting.BusinessSingle | src/pages/VotingPage.tsx:41-70 | "Business" lists only Michael Rodriguez. |
| Voting.BusinessFacts | src/pages/VotingPage.tsx:5-20 | "Business" is a selectable category other than the default, and it lists one student. |
| Voting.StrandedNextButton | src/pages/VotingPage.tsx:74-79 | After a vote in the default category and a switch to "Business", the Next button is still shown over a list of one student that offers no pair. |

## Left out

- File I/O is not modelled: reading the combined file, `readdir` auto-discovery of input files, timestamped output names, and writing the output with `json2csv`. The row loop takes the file's lines as a sequence, and returns the records that would be written.
- Splitting the file content on `'\n'` is not modelled; the input is already a sequence of lines.
- Console logging, the command line and the `try`/`catch` around `processCombinedFile` are left out. They carry no data.
- The `|| ''` defaults of lines 72-74 do not appear: every projected field is a string, so the default never applies.
- `id` and `elo` are JavaScript numbers (`src/types.ts:2,7`), modelled as unbounded integers. The mock ids and ratings are integers, and a vote only adds or subtracts 32, so no floating-point rounding arises.
- Strings are sequences of Unicode scalar values, not UTF-16 code units. The splitter only compares characters with `"` and `,`, which are the same in both.
- The concrete row `"Smith, Alice","Fall 2022",…` is not stated as its own lemma. `RoundTripRecord` covers every row of quoted, quote-free fields, this one included.
- Voting.VotingPage.Next: requires a list that is not of exactly one student, because the source's draw loop never terminates there; that input is shown under Findings instead.
- Voting.VotingPage.SelectCategory: requires a category from the selector's list, since the page offers no other value.
- `Math.random` is not modelled. The draw is a nondeterministic choice of any two positions with different ids, so how many draws the loop takes is not modelled.
- React's batching of state updates and re-rendering are not modelled. Each handler is one atomic transition, and the effect runs inside the transition that changes the category.
- JSX rendering, images, styling and hover states are not modelled, except for the Next button's visibility (`showNext`) and the card pair.
- `LeaderboardPage`, `Navbar` and `App` are not part of this model.
- The directory scraper, the LinkedIn scraper and the file combiner are not part of this model.

## Findings

| source | as written | input that shows it | evidently intended | confidence | as-written member | corrected member |
|---|---|---|---|---|---|---|
| src/pages/VotingPage.tsx:74-79, 104-115 | The category effect leaves `selectedId`, `showNext` and the pair untouched when the new category has fewer than two students. `handleNext` only returns early on an empty list, then redraws pairs until their ids differ. | Vote for a card in "Computer Science", then select "Business", which has one student. The Next button stays shown. Clicking it loops forever, because both draws always pick the same student. | The button should do nothing (or not be shown) when fewer than two students are listed. | not executed | Voting.StrandedNextButton | Voting.VotingPage.NextChecked |
