# climate.c aggregation, modelled in Dafny

`climate.c` reads tab-separated NOAA observation files and builds a summary for
each region, keyed by a two-character state code. This project models the
single pass that builds those summaries:

- **Tokenising** (`analyze_file`). Each line is split the way `strtok(line, "\t")`
  splits it, keeping at most nine tokens. A line that yields fewer than nine
  tokens is skipped.
- **Table lookup and insert.** The table is a fixed array of `NUM_STATES` (50)
  optional `climate_info` accumulators. A linear scan over it either finds the
  slot that holds the line's code or claims the first NULL slot.
- **Building and folding accumulators.** `create_state` builds an accumulator,
  `update_state_info` folds a record into one, and `kelvin_to_fahrenheit`
  converts the temperature.

The project has six files:

- `base.dfy`: `Option` and `Min`.
- `tokenizer.dfy`: strtok as `NextToken`/`Tokens`, an independent reference
  definition (`NonEmpty(Fields(s))`) and the token loop `TokenizeLine`.
- `climate_info.dfy`: `ClimateInfo`, `CreateState`, the fold of one record
  (`Accumulate`), `KelvinToFahrenheit` and the C truncating division of the
  timestamp.
- `aggregate.dfy`: `FoldAll`, which folds a sequence of records, and what it
  yields in terms of independent totals and first-reached extremes.
- `region_table.dfy`: the 50-slot table, its invariants (occupied slots form a
  prefix, and their codes are distinct), the scan (`Insert`, and the method
  `AnalyzeRecord`), and `UpdateStateInfo`.
- `analysis.dfy`: `analyze_file` over a sequence of lines (`Run`, and the
  method `AnalyzeFile`), and the main theorem `AnalyzeFromEmpty`.

The main theorem describes the table after any input, starting from the all-NULL
table of `main`:

- the occupied slots form a prefix;
- they hold the distinct codes of the accepted lines, in order of first
  appearance, capped at 50;
- each region's count and sums cover its accepted lines *after the first*.

`RunAppend` shows that handling several files in turn, as `main` does with one
shared table, is the same as handling their lines joined.

Numbers are exact reals. `atof` and `atoi` are passed in as a pair of total
functions (`Parsers`). The model says nothing about what they return for a
given token.

### Behaviour of the code worth knowing

- **Nine tokens.** The token loop stores at most nine tokens
  (climate.c:150), and a line with fewer than nine is skipped
  (climate.c:156-158). `tokens[8]`, the ninth, is the temperature.
- **The first record of a region is stored, not folded.** On the first
  sighting of a code, the fresh accumulator from `create_state` goes into the
  NULL slot as it is (climate.c:168-170): count 0, sums 0, extremes at
  ±DBL_MAX. `update_state_info` runs only for later records of the region
  (climate.c:171-172). So a region's count is its number of accepted lines
  minus one, and its sums and extremes leave out its first line.
  `SummaryTotals` and `AnalyzeFromEmpty` prove this for the count and the
  sums, and `RegionExtremes` for the extremes.
- **A full table drops new codes.** The table has `NUM_STATES` = 50 slots
  (climate.c:72). When the scan at climate.c:167-175 finds neither the code
  nor a NULL slot, the loop ends without a break and the line has no effect
  (`InsertFull`).

## Model

| member | source | states |
|---|---|---|
| Climate.KelvinToFahrenheit | climate.c:90-92 | the conversion is invertible: Fahrenheit back to Kelvin gives the input again |
| Climate.KelvinToFahrenheitOrder | climate.c:90-92 | the conversion is strictly increasing, so comparing Fahrenheit values orders temperatures as comparing Kelvin values does (both `<` and `==`, as if-and-only-ifs) |
| Climate.MillisToSeconds | climate.c:129 | the C division `millis / 1000` truncates toward zero: for a non-negative count, the result is the largest whole number of seconds not above it; for a negative count, the smallest not below it |
| Climate.RegionCode | climate.c:102 | the code `strncpy(code, token, 2)` copies is a prefix of the token, of length two (or the whole token when it is shorter) |
| Climate.CreateState | climate.c:95-112 | a fresh accumulator has the first two characters of token 0 as its code, count 0, all sums and counters 0, both timestamps 0, maximum -DBL_MAX and minimum DBL_MAX |
| Climate.Accumulate | climate.c:119-138 | one fold adds exactly 1 to the count, adds the record's humidity, Fahrenheit temperature and cloud cover to the sums, and adds its lightning and snow values to the counters. Afterwards the maximum is at least the record's temperature and the minimum at most it. Value and timestamp are replaced only on a strict improvement, so on a tie the earlier timestamp stays |
| Climate.FirstFoldSetsExtremes | climate.c:103-135 | the first fold into a fresh accumulator, for a temperature strictly inside ±DBL_MAX, sets both extremes to that temperature and both timestamps to that record's |
| Aggregate.FoldAllTotals | climate.c:119-138 | folding a sequence of records leaves the code alone, adds the number of records to the count, and adds each value's independent total over the records to the matching sum or counter |
| Aggregate.FoldAllMax | climate.c:124-130 | after folding a sequence, the maximum bounds every folded temperature and never drops. It and its timestamp are either the starting ones or those of the first record reaching it, and that record beat the start strictly |
| Aggregate.FoldAllMin | climate.c:124-135 | the symmetric statement for the minimum |
| Aggregate.FreshExtremes | climate.c:106-135 | for a fresh accumulator and a non-empty sequence of finite temperatures, both extremes bound all folded temperatures, are attained, and carry the timestamp of the first record attaining them |
| Tokenizer.SkipTabs | climate.c:147 | strtok's skip of leading delimiters: it removes a run of tabs from the front and leaves a string that is empty or starts with a non-tab |
| Tokenizer.TokenRun | climate.c:147 | the token strtok returns is the longest tab-free prefix: it holds no tab and is followed by a tab or the end |
| Tokenizer.NextToken | climate.c:147-152 | strtok yields nothing exactly when only tabs remain; otherwise it yields a non-empty, tab-free token and a strictly shorter rest |
| Tokenizer.Tokens | climate.c:147-152 | the tokens successive strtok calls hand out: none is empty or holds a tab, and there are no more of them than characters in the line. `TokensAreNonEmptyFields` equates them with the line's non-empty tab-separated fields |
| Tokenizer.LineTokens | climate.c:150-153 | the loop keeps a prefix of strtok's tokens of at most nine, and all of them when there are fewer than nine |
| Aggregate.FoldAll | climate.c:119-138 | `update_state_info` applied to records one after another keeps the code and adds one to the count per record; `FoldAllTotals`, `FoldAllMax` and `FoldAllMin` give every other field |
| RegionTable.Insert | climate.c:161-175 | one accepted record changes at most the slot where the scan stops. If the scan stops inside the table, that slot then holds the record's code; if it runs off the end, the table is unchanged. `InsertExisting`, `InsertNewRegion` and `InsertFull` give the three cases exactly |
| Analysis.Step | climate.c:146-175 | one pass of the line loop keeps the table's size and keeps it well formed (occupied slots a prefix, codes distinct); `LineStep` states which lines are skipped and what the others insert |
| Analysis.Run | climate.c:145-176 | the `fgets` loop over a file's lines keeps the table's size and keeps it well formed; `RunSummarises` and `AnalyzeFromEmpty` state what it holds afterwards |
| Tokenizer.JoinFields | climate.c:147-152 | the reference split loses nothing: joining a line's tab-separated fields with tabs gives the line back |
| Tokenizer.FieldsJoin | climate.c:147-152 | the other direction of the round trip: splitting tab-free fields that were joined with tabs gives the fields back |
| Tokenizer.TokensAreNonEmptyFields | climate.c:147-153 | the strtok tokens of a line are exactly its non-empty tab-separated fields, in order: runs of tabs collapse and no token is empty |
| Tokenizer.LineTokensAreFirstFields | climate.c:146-153 | what the loop keeps is the first min(9, n) non-empty fields, where n is how many the line has; none is empty or holds a tab |
| Tokenizer.TokenizeLine | climate.c:146-153 | the token loop stores strtok's results until strtok runs out or nine are stored. Its result is a prefix of the non-empty fields of length min(9, n), none empty or holding a tab |
| RegionTable.EmptyTable | climate.c:223 | `main`'s table has NUM_STATES slots, all NULL |
| RegionTable.FirstFree | climate.c:167-170 | the first NULL slot: every slot before it is occupied, and it is NULL (or the end of the table) |
| RegionTable.SlotFor | climate.c:167-175 | the scan stops at the first slot that is NULL or holds the code; every slot it passes holds a different code |
| RegionTable.SlotForExisting | climate.c:167-175 | in a well-formed table, the scan for a code that is present stops at the slot holding it |
| RegionTable.SlotForAbsent | climate.c:167-175 | when the occupied slots form a prefix, the scan for an absent code stops at the first NULL slot |
| RegionTable.UpdateStateInfo | climate.c:118-139 | only slot `index` changes; it gets the folded accumulator, whose count is one more |
| RegionTable.InsertExisting | climate.c:171-173 | a record whose code is in the table is folded into that slot alone, and no slot is claimed |
| RegionTable.InsertNewRegion | climate.c:161-170 | a record with a new code, while a NULL slot remains, fills the first NULL slot with its fresh accumulator, count still 0, and nothing else changes |
| RegionTable.InsertFull | climate.c:167-175 | when every slot holds another code, a record with a new code changes nothing |
| RegionTable.InsertPreservesWellFormed | climate.c:167-175 | every accepted line keeps the occupied slots a prefix with pairwise distinct codes |
| RegionTable.AnalyzeRecord | climate.c:161-175 | the imperative scan computes the lookup-or-insert of the record, and keeps the table well formed |
| Analysis.FirstSeen | climate.c:167-175 | the reference order of regions: it has the same members as the code sequence, each once |
| Analysis.FirstSeenOrder | climate.c:167-175 | the first-seen codes, and so the occupied slots, come in the order of the first occurrence of each code in the input: an earlier slot's code first occurs strictly before a later slot's |
| Analysis.MatchingEmpty | climate.c:167-171 | a code has no record among the accepted lines exactly when it is not among their first-seen codes |
| Analysis.InsertSummarises | climate.c:161-175 | one accepted record keeps the table a summary of the records so far. The table stays well formed, its slots list the first-seen codes in order, and each slot is its region's first record's fresh state with every later record of that region folded in |
| Analysis.StepSummarises | climate.c:146-175 | the same for one line, accepted or skipped |
| Analysis.RunSummarises | climate.c:142-177 | after any sequence of lines, the table starting all NULL is a summary of the accepted lines' records |
| Analysis.SummaryTotals | climate.c:119-138 | a summarised region's count is its number of records minus one. Its sums and counters are the totals over its records after the first |
| Analysis.AnalyzeFromEmpty | climate.c:142-177 | after any input, starting from the all-NULL table: 50 slots, occupied slots form a prefix, codes are distinct and in order of first appearance among accepted lines (the first 50 of them), every later slot is NULL, and each region holds its lines after the first, counted and summed |
| Analysis.RegionExtremes | climate.c:124-135 | for a region with at least one folded record, all of them finite temperatures: the extremes bound every folded temperature and carry the timestamp of the first folded record reaching them |
| Analysis.SummaryExtremes | climate.c:124-135 | the same statement for a single accumulator built from a region's first record and folded over the rest |
| Analysis.LineStep | climate.c:146-158 | a line with fewer than nine non-empty tab-separated fields leaves the table unchanged; any other line inserts its first nine fields |
| Analysis.RunAppend | climate.c:225-235 | handling two files one after the other with the same table is handling their lines joined |
| Analysis.AnalyzeFile | climate.c:142-177 | the loop over lines (tokenise, skip short lines, look up or insert) computes the functional model line by line, and keeps the table well formed |

## Left out

- `main`'s file handling (`fopen`, `fclose`, argument checks, error messages) is input and output. A file is given as its sequence of lines.
- `print_report` is left out entirely: it formats output with `printf`, renders time with `ctime` (which depends on the locale and time zone), and computes averages.
- `fgets` with `LINE_SIZE` 100 can cut a long line into several fragments, each then handled as a line. The model takes the lines as already given.
- `atof` and `atoi` are left as parameters. Their exact parsing, their behaviour on malformed text, and the `int` overflow of `atoi` on 13-digit millisecond timestamps are not modelled.
- Climate.MillisToSeconds: the division is exact over unbounded integers. The `int` result of `atoi` and the conversion to `time_t` are not bounded.
- Climate.Accumulate: `long double` and `double` rounding is not modelled; sums and comparisons are over exact reals. Nor are NaN and the infinities that `atof` returns for text such as "nan", "inf" or an out-of-range number. With a NaN temperature both comparisons at climate.c:127 and climate.c:132 are false, so the extremes stay put while `temperature_sum` becomes NaN; a real cannot represent that. The requirement that temperatures lie strictly between -DBL_MAX and DBL_MAX in `FirstFoldSetsExtremes`, `FreshExtremes`, `SummaryExtremes` and `RegionExtremes` stands in for ruling NaN and the infinities out. The `unsigned long` counters are unbounded integers, so their wrap-around and the conversion of a negative `atoi` result to `unsigned long` are not modelled either.
- Lines are Dafny strings in which one `char` stands for one byte of the line, and a line is assumed to hold no NUL byte. In C, `strtok`, `strncpy` and `strcmp` (climate.c:147, 102, 171) stop at the first NUL, which `fgets` can copy into the line; the model does not cut a line there. `strncpy` copies two bytes, so a code whose first character takes several bytes in UTF-8 is cut differently in C than in the model.
- Climate.RegionCode: `strncpy(code, token, 2)` leaves `code[2]` without a terminating NUL. `strcmp` then reads uninitialised memory. The model takes a code to be exactly the first two characters (fewer if the token is shorter) and compares those.
- `malloc` failure and its exit, and the leak of the accumulator built for a line whose code already has a slot, or whose code is dropped because the table is full, concern memory management only.
